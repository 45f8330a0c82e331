/**
 * The chat window of the client (WpfClient/MainWindow.xaml.cs): the roster of
 * other users rebuilt from every `ACTIVE_USERS:` message, the log of received
 * chat lines, and the formatting of outgoing public and private messages.
 */
module ChatClient {
  import opened Wrappers
  import opened Text
  import opened Transport

  const ActiveUsersTag: string := "ACTIVE_USERS:"
  const ServerClosedLine: string := "A szerver lezárta a kapcsolatot."
  const NoConnectionLine: string :=
    "Nincs kapcsolat a szerverrel. Kérlek, csatlakozz újra a Login ablakon keresztül."
  const DisconnectMessage: string := "DISCONNECT"

  /** What the refill loop adds for one entry: the trimmed entry, unless the entry is
      blank or is the user's own name. */
  function KeepEntry(user: string, me: string): seq<string> {
    var trimmedUser := Trim(user);
    if !IsBlank(user) && trimmedUser != me then [trimmedUser] else []
  }

  /** The concatenation of what `keep` gives for each entry, in order. */
  function Collect(users: seq<string>, keep: string -> seq<string>): seq<string> {
    if users == [] then []
    else Collect(users[..|users| - 1], keep) + keep(users[|users| - 1])
  }

  /** The roster entries the refill loop keeps from `users`, in order. */
  function KeepEntries(users: seq<string>, me: string): seq<string> {
    Collect(users, user => KeepEntry(user, me))
  }

  /** The entries of the text after the `ACTIVE_USERS:` tag: nothing for an empty
      text, otherwise its comma-separated parts, filtered. */
  function RosterEntries(usersString: string, me: string): seq<string> {
    KeepEntries(RosterUsers(usersString), me)
  }

  /** The comma-separated parts of the roster text; none for an empty text. */
  function RosterUsers(usersString: string): seq<string> {
    if usersString == [] then [] else Split(usersString, ',')
  }

  /** One roster entry: at most the trimmed name, kept unless blank or one's own. */
  lemma KeepEntryCases(user: string, me: string)
    ensures |KeepEntry(user, me)| <= 1
    ensures forall e | e in KeepEntry(user, me) :: e == Trim(user) && e != [] && IsTrimmed(e) && e != me
    ensures KeepEntry(user, me) == [] ==> IsBlank(user) || Trim(user) == me
  {
  }

  /** The parts of a non-empty list text are comma-free and join back to it. */
  lemma RosterUsersJoin(usersString: string)
    ensures RosterUsers(usersString) == [] <==> usersString == []
    ensures usersString != [] ==> Join(RosterUsers(usersString), ',') == usersString
    ensures forall p | p in RosterUsers(usersString) :: ',' !in p
  {
    if usersString != [] {
      JoinSplit(usersString, ',');
    }
  }

  /** Collecting distributes over concatenation, so the kept entries keep the
      order of the message. */
  lemma {:induction false} CollectAppend(a: seq<string>, b: seq<string>, keep: string -> seq<string>)
    ensures Collect(a + b, keep) == Collect(a, keep) + Collect(b, keep)
    decreases |b|
  {
    if b == [] {
      assert a + b == a;
    } else {
      var init, last := b[..|b| - 1], b[|b| - 1];
      CollectAppend(a, init, keep);
      var ab := a + b;
      assert ab[..|ab| - 1] == a + init && ab[|ab| - 1] == last;
      assert Collect(ab, keep) == Collect(a + init, keep) + keep(last);
      assert Collect(b, keep) == Collect(init, keep) + keep(last);
    }
  }

  /** Keeping entries distributes over concatenation. */
  lemma KeepEntriesAppend(a: seq<string>, b: seq<string>, me: string)
    ensures KeepEntries(a + b, me) == KeepEntries(a, me) + KeepEntries(b, me)
  {
    CollectAppend(a, b, user => KeepEntry(user, me));
  }

  /** Every kept entry is non-empty, trimmed and not the user's own name. */
  lemma {:induction false} KeepEntriesWellFormed(users: seq<string>, me: string)
    ensures forall n | n in KeepEntries(users, me) :: n != [] && IsTrimmed(n) && n != me
    decreases |users|
  {
    if users != [] {
      var init, last := users[..|users| - 1], users[|users| - 1];
      KeepEntriesWellFormed(init, me);
      assert KeepEntries(users, me) == KeepEntries(init, me) + KeepEntry(last, me);
      forall n | n in KeepEntry(last, me) ensures n != [] && IsTrimmed(n) && n != me {
        assert n == Trim(last) && !IsBlank(last);
      }
    }
  }

  /** The roster built from a list text holds only well-formed names other than
      one's own, and none for an empty text. */
  lemma RosterEntriesWellFormed(usersString: string, me: string)
    ensures forall e | e in RosterEntries(usersString, me) :: e != [] && IsTrimmed(e) && e != me
    ensures usersString == [] ==> RosterEntries(usersString, me) == []
  {
    KeepEntriesWellFormed(RosterUsers(usersString), me);
  }

  /** The refill loop after one more entry. */
  lemma KeepEntriesPrefixStep(users: seq<string>, i: nat, me: string)
    requires i < |users|
    ensures KeepEntries(users[..i + 1], me) == KeepEntries(users[..i], me) + KeepEntry(users[i], me)
  {
    var us := users[..i + 1];
    assert us[..|us| - 1] == users[..i] && us[|us| - 1] == users[i];
  }

  /** The refill loop after its last entry. */
  lemma KeepEntriesWhole(users: seq<string>, me: string)
    ensures KeepEntries(users[..|users|], me) == KeepEntries(users, me)
  {
    assert users[..|users|] == users;
  }

  /** A well-formed name is kept exactly when it is not one's own. */
  lemma KeepEntryWellFormed(name: string, me: string)
    requires name != [] && IsTrimmed(name)
    ensures KeepEntry(name, me) == if name != me then [name] else []
  {
    assert !IsBlank(name) by { assert Trim(name) == name; }
  }

  /** Only well-formed names other than one's own survive, and every such name does. */
  lemma {:induction false} KeepWellFormed(names: seq<string>, me: string)
    requires forall n | n in names :: n != [] && IsTrimmed(n)
    ensures KeepEntries(names, me) == Others(names, me)
    decreases |names|
  {
    if names != [] {
      var init, last := names[..|names| - 1], names[|names| - 1];
      assert forall n | n in init :: n in names;
      KeepWellFormed(init, me);
      assert last in names;
      KeepEntryWellFormed(last, me);
      OthersSnoc(init, last, me);
      FrontLast(names);
    }
  }

  /** The listed names without the user's own, in order. */
  function Others(names: seq<string>, me: string): (r: seq<string>)
    ensures forall n | n in r :: n in names && n != me
    ensures forall n | n in names && n != me :: n in r
  {
    if names == [] then []
    else (if names[0] != me then [names[0]] else []) + Others(names[1..], me)
  }

  lemma {:induction false} OthersAppend(a: seq<string>, b: seq<string>, me: string)
    ensures Others(a + b, me) == Others(a, me) + Others(b, me)
    decreases |a|
  {
    if a == [] {
      assert a + b == b;
    } else {
      OthersAppend(a[1..], b, me);
      var head := if a[0] != me then [a[0]] else [];
      assert Others(a + b, me) == head + Others(a[1..] + b, me) by {
        assert (a + b)[1..] == a[1..] + b;
        assert (a + b)[0] == a[0];
      }
      assert Others(a, me) == head + Others(a[1..], me);
    }
  }

  /** Filtering one more name at the end. */
  lemma OthersSnoc(init: seq<string>, last: string, me: string)
    ensures Others(init + [last], me) == Others(init, me) + if last != me then [last] else []
  {
    OthersAppend(init, [last], me);
    assert Others([last], me) == (if last != me then [last] else []) + Others([], me);
  }

  /** The roster after one receive: an `ACTIVE_USERS:` message replaces it. */
  function RosterStep(roster: seq<string>, received: ReadResult, me: string): seq<string> {
    if received.Data? && StartsWith(received.payload, ActiveUsersTag) then
      RosterEntries(received.payload[|ActiveUsersTag|..], me)
    else roster
  }

  /** The roster after a run of receives. */
  function RosterAfter(roster: seq<string>, receives: seq<ReadResult>, me: string): seq<string> {
    if receives == [] then roster
    else RosterStep(RosterAfter(roster, receives[..|receives| - 1], me), receives[|receives| - 1], me)
  }

  /** What one receive adds to the chat log: a payload that is not a roster message,
      verbatim, or the closing line after a zero-byte read. */
  function LogLines(received: ReadResult): seq<string> {
    match received
    case Data(m) => if StartsWith(m, ActiveUsersTag) then [] else [m]
    case Closed => [ServerClosedLine]
    case Error => []
  }

  /** At most one log line per read: none for an error or a roster message, the
      payload verbatim otherwise. */
  lemma LogLinesCases(received: ReadResult)
    ensures |LogLines(received)| <= 1
    ensures LogLines(received) == [] <==>
      received.Error? || (received.Data? && StartsWith(received.payload, ActiveUsersTag))
    ensures received.Data? && LogLines(received) != [] ==> LogLines(received) == [received.payload]
  {
  }

  /** What a run of receives adds to the chat log. */
  function ChatLines(receives: seq<ReadResult>): seq<string> {
    if receives == [] then []
    else ChatLines(receives[..|receives| - 1]) + LogLines(receives[|receives| - 1])
  }

  /** One more receive advances the roster and the log by one step. */
  lemma AfterOneMore(roster: seq<string>, receives: seq<ReadResult>, n: nat, me: string)
    requires n < |receives|
    ensures RosterAfter(roster, receives[..n + 1], me) == RosterStep(RosterAfter(roster, receives[..n], me), receives[n], me)
    ensures ChatLines(receives[..n + 1]) == ChatLines(receives[..n]) + LogLines(receives[n])
  {
    var rs := receives[..n + 1];
    assert rs[..|rs| - 1] == receives[..n] && rs[|rs| - 1] == receives[n];
  }

  /** The roster depends only on the latest `ACTIVE_USERS:` message: whatever the
      roster was before, and whatever chat lines follow. */
  lemma {:induction false} LatestRosterWins(roster: seq<string>, receives: seq<ReadResult>, k: nat, me: string)
    requires k < |receives| && receives[k].Data? && StartsWith(receives[k].payload, ActiveUsersTag)
    requires forall j | k < j < |receives| :: !(receives[j].Data? && StartsWith(receives[j].payload, ActiveUsersTag))
    ensures RosterAfter(roster, receives, me) == RosterEntries(receives[k].payload[|ActiveUsersTag|..], me)
    decreases |receives|
  {
    var init := receives[..|receives| - 1];
    if k < |receives| - 1 {
      LatestRosterWins(roster, init, k, me);
      assert init[k] == receives[k];
    }
  }

  /** Every one of the first `n` receives returned data. */
  predicate AllData(receives: seq<ReadResult>, n: int) {
    forall k | 0 <= k < n && k < |receives| :: receives[k].Data?
  }

  /** Data on the first `n` receives and on the next one is data on the first `n + 1`. */
  lemma AllDataStep(receives: seq<ReadResult>, n: nat)
    requires AllData(receives, n - 1)
    requires 1 <= n <= |receives| ==> receives[n - 1].Data?
    ensures AllData(receives, n)
  {
  }

  /** The payload for the text: `@recipient text` when a recipient is selected,
      otherwise the text itself. */
  function FormatOutgoing(recipient: Option<string>, messageToSend: string): string {
    if recipient.Some? && recipient.value != [] then "@" + recipient.value + " " + messageToSend
    else messageToSend
  }

  /** The chat window of a logged-in user. */
  class ChatWindow {
    var clientSocket: Socket
    const username: string
    /** The other online users, as last pushed by the server. */
    var activeUsers: seq<string>
    /** The chat lines shown to the user. */
    var log: seq<string>
    /** Everything this window wrote to its socket, in order. */
    var sent: seq<string>
    var sendEnabled: bool

    constructor (socket: Socket, loggedInUsername: string)
      ensures clientSocket == socket && username == loggedInUsername
      ensures activeUsers == [] && sent == [] && sendEnabled
      ensures log == ["Sikeresen bejelentkezve mint: " + loggedInUsername, "Üdvözöllek a chat szobában!"]
    {
      clientSocket := socket;
      username := loggedInUsername;
      activeUsers := [];
      sent := [];
      sendEnabled := true;
      log := ["Sikeresen bejelentkezve mint: " + loggedInUsername, "Üdvözöllek a chat szobában!"];
    }

    /** Clears the roster, then adds every kept entry of the message in order. */
    method RefreshRoster(usersString: string)
      modifies this`activeUsers
      ensures activeUsers == RosterEntries(usersString, username)
    {
      var users := RosterUsers(usersString);
      activeUsers := [];
      var i := 0;
      while i < |users|
        invariant 0 <= i <= |users|
        invariant activeUsers == KeepEntries(users[..i], username)
      {
        AddEntry(users[i]);
        KeepEntriesPrefixStep(users, i, username);
        i := i + 1;
      }
      KeepEntriesWhole(users, username);
    }

    /** One turn of the refill loop: the trimmed entry joins the roster unless it is
        blank or the user's own name. */
    method AddEntry(user: string)
      modifies this`activeUsers
      ensures activeUsers == old(activeUsers) + KeepEntry(user, username)
    {
      var trimmedUser := Trim(user);
      if !IsBlank(user) && trimmedUser != username {
        activeUsers := activeUsers + [trimmedUser];
      }
    }

    /** One non-empty receive: a roster message rebuilds the roster, anything else is
        logged verbatim. */
    method OnMessage(receivedMessage: Payload)
      modifies this`activeUsers, this`log
      ensures StartsWith(receivedMessage, ActiveUsersTag) ==>
        activeUsers == RosterEntries(receivedMessage[|ActiveUsersTag|..], username) && log == old(log)
      ensures !StartsWith(receivedMessage, ActiveUsersTag) ==>
        activeUsers == old(activeUsers) && log == old(log) + [receivedMessage]
    {
      if StartsWith(receivedMessage, ActiveUsersTag) {
        var usersString := receivedMessage[|ActiveUsersTag|..];
        RefreshRoster(usersString);
      } else {
        log := log + [receivedMessage];
      }
    }

    /** One receive inside the loop: a payload goes to OnMessage, a zero-byte read
        logs the closing line; `stop` says the loop ends here. */
    method Receive(received: ReadResult) returns (stop: bool)
      modifies this`activeUsers, this`log
      ensures activeUsers == RosterStep(old(activeUsers), received, username)
      ensures log == old(log) + LogLines(received)
      ensures stop <==> !received.Data?
    {
      match received {
        case Data(receivedMessage) =>
          OnMessage(receivedMessage);
          stop := false;
        case Closed =>
          log := log + [ServerClosedLine];
          stop := true;
        case Error =>
          stop := true;
      }
    }

    /** The receive loop: runs while the socket is connected and stops after a
        zero-byte read or an error. `waiting` means the receives ran out first. */
    method ReadLoop(receives: seq<ReadResult>) returns (used: nat, waiting: bool)
      modifies this`activeUsers, this`log
      ensures used <= |receives|
      ensures activeUsers == RosterAfter(old(activeUsers), receives[..used], username)
      ensures log == old(log) + ChatLines(receives[..used])
      ensures AllData(receives, used - 1)
      ensures waiting ==> used == |receives| && AllData(receives, |receives|) && CanSend(clientSocket)
      ensures !waiting && CanSend(clientSocket) ==> used >= 1 && !receives[used - 1].Data?
      ensures !CanSend(clientSocket) ==> used == 0 && !waiting
    {
      used := 0;
      var stop := false;
      while !stop && used < |receives| && CanSend(clientSocket)
        invariant used <= |receives|
        invariant used > 0 ==> CanSend(clientSocket)
        invariant activeUsers == RosterAfter(old(activeUsers), receives[..used], username)
        invariant log == old(log) + ChatLines(receives[..used])
        invariant AllData(receives, used - 1)
        invariant stop <==> used >= 1 && !receives[used - 1].Data?
        decreases |receives| - used
      {
        var received := receives[used];
        AfterOneMore(old(activeUsers), receives, used, username);
        stop := Receive(received);
        used := used + 1;
        AllDataStep(receives, used - 1);
      }
      waiting := !stop && CanSend(clientSocket);
      if waiting {
        AllDataStep(receives, used);
      }
    }

    /** ReceiveMessagesAsync: the receive loop, then, once it has ended, the socket
        is dropped and sending is disabled. */
    method ReceiveMessages(receives: seq<ReadResult>) returns (used: nat, waiting: bool)
      modifies this`activeUsers, this`log, this`clientSocket, this`sendEnabled
      ensures used <= |receives|
      ensures activeUsers == RosterAfter(old(activeUsers), receives[..used], username)
      ensures log == old(log) + ChatLines(receives[..used])
      ensures AllData(receives, used - 1)
      ensures waiting ==>
        && used == |receives| && AllData(receives, |receives|)
        && clientSocket == old(clientSocket) && CanSend(clientSocket) && sendEnabled == old(sendEnabled)
      ensures !waiting ==>
        && clientSocket == NoSocket && !sendEnabled
        && (CanSend(old(clientSocket)) ==> used >= 1 && !receives[used - 1].Data?)
        && (!CanSend(old(clientSocket)) ==> used == 0)
    {
      used, waiting := ReadLoop(receives);
      if !waiting {
        clientSocket := NoSocket;
        sendEnabled := false;
      }
    }

    /** The send button: the text is trimmed and nothing happens when it is empty;
        with a connected socket the formatted payload is sent and echoed to the log,
        otherwise the user is told there is no connection and sending is disabled. */
    method SendMessageButtonClick(text: string, recipient: Option<string>)
      modifies this`sent, this`log, this`sendEnabled
      ensures var messageToSend := Trim(text);
        if messageToSend == [] then
          sent == old(sent) && log == old(log) && sendEnabled == old(sendEnabled)
        else if CanSend(clientSocket) then
          && sent == old(sent) + [FormatOutgoing(recipient, messageToSend)]
          && log == old(log) + [EchoLine(recipient, messageToSend)]
          && sendEnabled == old(sendEnabled)
        else
          sent == old(sent) && log == old(log) + [NoConnectionLine] && !sendEnabled
    {
      var messageToSend := Trim(text);
      if messageToSend == [] {
        return;
      }
      SendTrimmed(messageToSend, recipient);
    }

    /** The send button once the trimmed text is known to be non-empty. */
    method SendTrimmed(messageToSend: string, recipient: Option<string>)
      modifies this`sent, this`log, this`sendEnabled
      ensures CanSend(clientSocket) ==>
        && sent == old(sent) + [FormatOutgoing(recipient, messageToSend)]
        && log == old(log) + [EchoLine(recipient, messageToSend)]
        && sendEnabled == old(sendEnabled)
      ensures !CanSend(clientSocket) ==>
        sent == old(sent) && log == old(log) + [NoConnectionLine] && !sendEnabled
    {
      if CanSend(clientSocket) {
        var finalMessageToSend := FormatOutgoing(recipient, messageToSend);
        log := log + [EchoLine(recipient, messageToSend)];
        sent := sent + [finalMessageToSend];
      } else {
        log := log + [NoConnectionLine];
        sendEnabled := false;
      }
    }

    /** Closing the window: with a connected socket, DISCONNECT is sent when the
        send completes, and the socket is dropped either way; otherwise nothing
        happens. `sendSucceeds` says whether the send completes. */
    method Closing(sendSucceeds: bool)
      modifies this`sent, this`clientSocket
      ensures CanSend(old(clientSocket)) ==>
        sent == old(sent) + (if sendSucceeds then [DisconnectMessage] else []) && clientSocket == NoSocket
      ensures !CanSend(old(clientSocket)) ==> sent == old(sent) && clientSocket == old(clientSocket)
    {
      if CanSend(clientSocket) {
        if sendSucceeds {
          sent := sent + [DisconnectMessage];
        }
        clientSocket := NoSocket;
      }
    }
  }

  /** The line the sender sees for its own message. */
  function EchoLine(recipient: Option<string>, messageToSend: string): string {
    if recipient.Some? && recipient.value != [] then "-> Privát [" + recipient.value + "]: " + messageToSend
    else "-> Mindenki: " + messageToSend
  }

  /** The payload carries the typed text verbatim at its end, and starts with '@'
      iff a recipient is chosen or the text itself starts with '@'. */
  lemma FormatOutgoingShape(recipient: Option<string>, messageToSend: string)
    ensures var r := FormatOutgoing(recipient, messageToSend);
      && |messageToSend| <= |r| && r[|r| - |messageToSend|..] == messageToSend
      && (StartsWith(r, "@") <==> (recipient.Some? && recipient.value != []) || StartsWith(messageToSend, "@"))
  {
  }

  /** The echo ends with the typed text and reads as private iff a recipient is chosen. */
  lemma EchoLineShape(recipient: Option<string>, messageToSend: string)
    ensures var r := EchoLine(recipient, messageToSend);
      && |messageToSend| <= |r| && r[|r| - |messageToSend|..] == messageToSend
      && (StartsWith(r, "-> Privát [") <==> recipient.Some? && recipient.value != [])
  {
    if !(recipient.Some? && recipient.value != []) {
      DiffersAt(EchoLine(recipient, messageToSend), "-> Privát [", 3);
    }
  }
}
