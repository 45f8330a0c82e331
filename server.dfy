/**
 * The server's shared state and its per-connection handlers: the list of
 * connected ClientHandler objects kept by WpfServer/MainWindow.xaml.cs and the
 * handshake, receive loop and clean-up of WpfServer/ClientHandler.cs.  What a
 * handler writes to its socket is recorded, in order, in its `outbox`.
 */
module Server {
  import opened Wrappers
  import opened Text
  import opened Transport
  import opened ServerProtocol
  import Credentials

  /** No handler object occurs twice in the list. */
  ghost predicate Distinct(cs: seq<ClientHandler>) {
    forall i, j | 0 <= i < j < |cs| :: cs[i] != cs[j]
  }

  /** No two different authenticated handlers hold names that are equal up to case. */
  ghost predicate UniqueNames(cs: seq<ClientHandler>)
    reads cs`Username
  {
    forall a, b | a in cs && b in cs && a != b && a.Username.Some? && b.Username.Some? ::
      !EqualsIgnoreCase(a.Username.value, b.Username.value)
  }

  /** Dropping handlers cannot make two names clash. */
  lemma UniqueNamesSubset(cs: seq<ClientHandler>, r: seq<ClientHandler>)
    requires UniqueNames(cs)
    requires forall c | c in r :: c in cs
    ensures UniqueNames(r)
  {
  }

  /** A handler that a broadcast writes to: authenticated, with a connected socket. */
  predicate Reached(c: ClientHandler)
    reads c`Username, c`ClientSocket
  {
    c.Username.Some? && CanSend(c.ClientSocket)
  }

  /** Every handler in `cs` that is authenticated and can send received `messages`;
      every other one received nothing. */
  twostate predicate Broadcasted(cs: seq<ClientHandler>, messages: seq<string>)
    reads cs
  {
    forall c | c in cs :: c.outbox == old(c.outbox) + (if Reached(c) then messages else [])
  }

  /** Two guarded sends in turn make one guarded send of both messages. */
  lemma AppendInTurn(before: seq<string>, middle: seq<string>, after: seq<string>, first: string, second: string, reached: bool)
    requires middle == before + (if reached then [first] else [])
    requires after == middle + (if reached then [second] else [])
    ensures after == before + (if reached then [first, second] else [])
  {
    if reached {
      assert before + [first] + [second] == before + [first, second];
    }
  }

  /** Exactly one send, to `target`, happened among the handlers of `cs`. */
  twostate predicate DeliveredTo(cs: seq<ClientHandler>, target: ClientHandler, message: string)
    reads cs
  {
    forall c | c in cs ::
      c.outbox == old(c.outbox) + (if c == target then old(Sent(c.ClientSocket, message)) else [])
  }

  /** Nothing was written to any handler of `cs`. */
  twostate predicate Untouched(cs: seq<ClientHandler>)
    reads cs
  {
    forall c | c in cs :: c.outbox == old(c.outbox)
  }

  /** `connectedClients.Where(c => c.Username != null).ToList()`: the authenticated
      handlers, in list order. */
  function Authenticated(cs: seq<ClientHandler>): (r: seq<ClientHandler>)
    reads cs`Username
    ensures forall c | c in r :: c in cs && c.Username.Some?
    ensures forall c | c in cs && c.Username.Some? :: c in r
    ensures Distinct(cs) ==> Distinct(r)
  {
    if cs == [] then []
    else
      var rest := Authenticated(cs[1..]);
      assert forall c | c in rest :: c in cs[1..];
      if cs[0].Username.Some? then [cs[0]] + rest else rest
  }

  /** The usernames of a snapshot of authenticated handlers, in order. */
  function UsernamesOf(snapshot: seq<ClientHandler>): (r: seq<string>)
    reads snapshot`Username
    ensures |r| == |snapshot|
    ensures forall k | 0 <= k < |r| :: r[k] == UserLabel(snapshot[k].Username)
  {
    if snapshot == [] then []
    else [UserLabel(snapshot[0].Username)] + UsernamesOf(snapshot[1..])
  }

  /** The names of all authenticated handlers, in list order. */
  function Names(cs: seq<ClientHandler>): seq<string>
    reads cs`Username
  {
    UsernamesOf(Authenticated(cs))
  }

  /** The names of the authenticated handlers other than `me`. */
  function OtherNames(cs: seq<ClientHandler>, me: ClientHandler): (r: seq<string>)
    reads cs`Username
    ensures forall c | c in cs && c != me && c.Username.Some? :: c.Username.value in r
    ensures forall n | n in r :: exists c | c in cs :: c != me && c.Username == Some(n)
  {
    if cs == [] then []
    else
      var rest := OtherNames(cs[1..], me);
      assert forall n | n in rest :: exists c | c in cs[1..] :: c != me && c.Username == Some(n);
      if cs[0] != me && cs[0].Username.Some? then [cs[0].Username.value] + rest else rest
  }

  /** The duplicate-login test of the handshake is LINQ's `Any` over the other handlers. */
  lemma NameTakenByOther(cs: seq<ClientHandler>, me: ClientHandler, username: string)
    ensures NameTaken(OtherNames(cs, me), username) <==>
      exists c | c in cs :: c != me && c.Username.Some? && EqualsIgnoreCase(c.Username.value, username)
  {
    if NameTaken(OtherNames(cs, me), username) {
      var n :| n in OtherNames(cs, me) && EqualsIgnoreCase(n, username);
      var c :| c in cs && c != me && c.Username == Some(n);
    }
  }

  /** `FirstOrDefault` of an authenticated handler whose name equals `name` ignoring case. */
  function FindByName(cs: seq<ClientHandler>, name: string): (r: Option<ClientHandler>)
    reads cs`Username
    ensures r.Some? ==> r.value in cs && r.value.Username.Some? && EqualsIgnoreCase(r.value.Username.value, name)
    ensures r.None? ==> forall c | c in cs && c.Username.Some? :: !EqualsIgnoreCase(c.Username.value, name)
  {
    if cs == [] then None
    else if cs[0].Username.Some? && EqualsIgnoreCase(cs[0].Username.value, name) then Some(cs[0])
    else FindByName(cs[1..], name)
  }

  /** With unique names the lookup finds the only handler holding the name. */
  lemma FindIsOnlyMatch(cs: seq<ClientHandler>, name: string, c: ClientHandler)
    requires UniqueNames(cs)
    requires c in cs && c.Username.Some? && EqualsIgnoreCase(c.Username.value, name)
    ensures FindByName(cs, name) == Some(c)
  {
    var found := FindByName(cs, name);
    if found.Some? && found.value != c {
      assert false;
    }
  }

  /** `List.Remove`: drops the first occurrence of `x`. */
  function RemoveFirst(cs: seq<ClientHandler>, x: ClientHandler): (r: seq<ClientHandler>)
    ensures x !in cs ==> r == cs
    ensures x in cs ==> |r| == |cs| - 1
    ensures forall i | 0 <= i < |r| :: r[i] in cs
  {
    if cs == [] then []
    else if cs[0] == x then cs[1..]
    else [cs[0]] + RemoveFirst(cs[1..], x)
  }

  /** Removal keeps every other handler and adds none; on a list without repeats
      the removed handler is gone and no repeat appears. */
  lemma {:induction false} RemoveFirstMembers(cs: seq<ClientHandler>, x: ClientHandler)
    ensures forall c | c in RemoveFirst(cs, x) :: c in cs
    ensures forall c | c in cs && c != x :: c in RemoveFirst(cs, x)
    ensures Distinct(cs) ==> Distinct(RemoveFirst(cs, x)) && x !in RemoveFirst(cs, x)
  {
    if cs != [] && cs[0] != x {
      RemoveFirstMembers(cs[1..], x);
      var rest := RemoveFirst(cs[1..], x);
      assert RemoveFirst(cs, x) == [cs[0]] + rest;
      assert forall c | c in rest :: c in cs[1..];
      assert forall c | c in cs && c != x && c != cs[0] :: c in cs[1..];
      if Distinct(cs) {
        assert Distinct(cs[1..]) && cs[0] !in cs[1..];
        assert cs[0] !in rest;
      }
    } else if cs != [] {
      assert forall c | c in cs[1..] :: c in cs;
      if Distinct(cs) {
        assert x !in cs[1..];
      }
    }
  }

  /** Removing the first occurrence, found at index `k`, is cutting out that index. */
  lemma {:induction false} RemoveFirstAt(cs: seq<ClientHandler>, x: ClientHandler, k: nat)
    requires k < |cs| && cs[k] == x
    requires forall j | 0 <= j < k :: cs[j] != x
    ensures RemoveFirst(cs, x) == cs[..k] + cs[k + 1..]
  {
    if k > 0 {
      RemoveFirstAt(cs[1..], x, k - 1);
      assert cs[1..][..k - 1] + cs[1..][k..] == cs[1..k] + cs[k + 1..];
      assert cs[..k] == [cs[0]] + cs[1..k];
    }
  }

  /** None of the reads `receives[1..n]` of the receive loop ends the session. */
  predicate LoopContinues(receives: seq<ReadResult>, n: int) {
    forall k | 1 <= k < n && k < |receives| :: !EndsSession(receives[k])
  }

  /** A read that does not end the session extends the run of such reads. */
  lemma LoopContinuesStep(receives: seq<ReadResult>, n: nat)
    requires LoopContinues(receives, n - 1)
    requires 2 <= n <= |receives| ==> !EndsSession(receives[n - 1])
    ensures LoopContinues(receives, n)
  {
  }

  /** The receive loop stopped at its `n`-th read, which ends the session. */
  predicate LoopStops(receives: seq<ReadResult>, n: int) {
    2 <= n <= |receives| && EndsSession(receives[n - 1])
  }

  /** The socket of `c`, where `meSocket` stands for the socket of `me`. */
  ghost function SocketAs(cs: seq<ClientHandler>, me: ClientHandler, meSocket: Socket, c: ClientHandler): Socket
    requires c == me || c in cs
    reads (set d | d in cs && d != me)`ClientSocket
  {
    if c == me then meSocket else c.ClientSocket
  }

  /** A broadcast over `cs` writes to `c`: it is listed, logged in and connected. */
  ghost predicate ReachedAs(cs: seq<ClientHandler>, me: ClientHandler, meSocket: Socket, c: ClientHandler)
    reads cs`Username, (set d | d in cs && d != me)`ClientSocket
  {
    c in cs && c.Username.Some? && CanSend(SocketAs(cs, me, meSocket, c))
  }

  /** A listed handler as a dispatch by another handler sees it: its name and its
      socket. */
  datatype Peer = Peer(handler: ClientHandler, name: Option<string>, socket: Socket)

  /** The list as `me` sees it while it dispatches, where `meSocket` stands for
      the socket of `me`. */
  ghost function View(cs: seq<ClientHandler>, me: ClientHandler, meSocket: Socket): (v: seq<Peer>)
    reads cs`Username, (set d | d in cs && d != me)`ClientSocket
    ensures |v| == |cs|
    ensures forall i | 0 <= i < |v| :: v[i] == Peer(cs[i], cs[i].Username, SocketAs(cs, me, meSocket, cs[i]))
  {
    if cs == [] then []
    else [Peer(cs[0], cs[0].Username, SocketAs(cs, me, meSocket, cs[0]))] + View(cs[1..], me, meSocket)
  }

  /** The first entry for handler `c`. */
  function PeerOf(v: seq<Peer>, c: ClientHandler): Option<Peer> {
    if v == [] then None
    else if v[0].handler == c then Some(v[0])
    else PeerOf(v[1..], c)
  }

  /** `ReachedAs` on a view. */
  predicate ReachedIn(v: seq<Peer>, c: ClientHandler) {
    var p := PeerOf(v, c);
    p.Some? && p.value.name.Some? && CanSend(p.value.socket)
  }

  /** `FindByName` on a view. */
  function FindIn(v: seq<Peer>, name: string): Option<Peer> {
    if v == [] then None
    else if v[0].name.Some? && EqualsIgnoreCase(v[0].name.value, name) then Some(v[0])
    else FindIn(v[1..], name)
  }

  /** What the dispatch of one command by `me`, named `meName`, writes to `c`,
      given the view `v` of the list. */
  function DeliveryIn(v: seq<Peer>, me: ClientHandler, meName: Option<string>, meSocket: Socket, command: Command, c: ClientHandler): seq<string> {
    match command
    case Disconnect => []
    case Broadcast(message) => if ReachedIn(v, c) then [message] else []
    case PrivateFormatError(reply) => if c == me then Sent(meSocket, reply) else []
    case Private(recipient, content) =>
      var target := FindIn(v, recipient);
      if target.Some? then
        if c == target.value.handler then
          Sent(target.value.socket, PrivateText(UserLabel(meName), PrivateText(UserLabel(meName), content)))
        else []
      else if c == me then Sent(meSocket, NotFoundReply(recipient))
      else []
  }

  /** What one read of the receive loop writes to `c`. */
  function ReadDeliveryIn(v: seq<Peer>, me: ClientHandler, meName: Option<string>, meSocket: Socket, received: ReadResult, c: ClientHandler): seq<string> {
    if received.Data? then DeliveryIn(v, me, meName, meSocket, Route(received.payload), c) else []
  }

  /** What a run of reads of the receive loop writes to `c`, in order. */
  function DeliveriesIn(v: seq<Peer>, me: ClientHandler, meName: Option<string>, meSocket: Socket, run: seq<ReadResult>, c: ClientHandler): seq<string> {
    if run == [] then []
    else DeliveriesIn(v, me, meName, meSocket, run[..|run| - 1], c) + ReadDeliveryIn(v, me, meName, meSocket, run[|run| - 1], c)
  }

  /** What the dispatch of one command received by `me` writes to `c`. */
  ghost function Delivery(cs: seq<ClientHandler>, me: ClientHandler, meSocket: Socket, command: Command, c: ClientHandler): seq<string>
    reads cs`Username, me`Username, (set d | d in cs && d != me)`ClientSocket
  {
    DeliveryIn(View(cs, me, meSocket), me, me.Username, meSocket, command, c)
  }

  /** What a run of reads of the receive loop of `me` writes to `c`, in order. */
  ghost function Deliveries(cs: seq<ClientHandler>, me: ClientHandler, meSocket: Socket, received: seq<ReadResult>, c: ClientHandler): seq<string>
    reads cs`Username, me`Username, (set d | d in cs && d != me)`ClientSocket
  {
    DeliveriesIn(View(cs, me, meSocket), me, me.Username, meSocket, received, c)
  }

  /** The entry a view holds for a listed handler. */
  lemma {:induction false} PeerOfView(cs: seq<ClientHandler>, me: ClientHandler, meSocket: Socket, c: ClientHandler)
    ensures c in cs ==> PeerOf(View(cs, me, meSocket), c) == Some(Peer(c, c.Username, SocketAs(cs, me, meSocket, c)))
    ensures c !in cs ==> PeerOf(View(cs, me, meSocket), c) == None
  {
    if cs != [] {
      PeerOfView(cs[1..], me, meSocket, c);
      assert View(cs, me, meSocket)[1..] == View(cs[1..], me, meSocket);
    }
  }

  /** The lookup on a view finds the entry of the handler `FindByName` finds. */
  lemma {:induction false} FindInView(cs: seq<ClientHandler>, me: ClientHandler, meSocket: Socket, name: string)
    ensures var found := FindByName(cs, name);
      FindIn(View(cs, me, meSocket), name)
        == if found.Some? then Some(Peer(found.value, found.value.Username, SocketAs(cs, me, meSocket, found.value))) else None
  {
    if cs != [] {
      FindInView(cs[1..], me, meSocket, name);
      assert View(cs, me, meSocket)[1..] == View(cs[1..], me, meSocket);
    }
  }

  /** Seen from the sender's own socket, a broadcast reaches the listed handlers
      that are authenticated and connected. */
  lemma BroadcastDelivery(cs: seq<ClientHandler>, me: ClientHandler, message: string, c: ClientHandler)
    ensures DeliveryIn(View(cs, me, me.ClientSocket), me, me.Username, me.ClientSocket, Broadcast(message), c)
      == if c in cs && Reached(c) then [message] else []
  {
    PeerOfView(cs, me, me.ClientSocket, c);
  }

  /** Seen from the sender's own socket, a private message reaches the handler
      `FindByName` finds, or else the not-found reply reaches the sender. */
  lemma PrivateDelivery(cs: seq<ClientHandler>, me: ClientHandler, recipient: string, content: string, c: ClientHandler)
    ensures var target := FindByName(cs, recipient);
      var text := PrivateText(UserLabel(me.Username), PrivateText(UserLabel(me.Username), content));
      DeliveryIn(View(cs, me, me.ClientSocket), me, me.Username, me.ClientSocket, Private(recipient, content), c)
        == if target.Some? then (if c == target.value then Sent(c.ClientSocket, text) else [])
           else if c == me then Sent(me.ClientSocket, NotFoundReply(recipient))
           else []
  {
    FindInView(cs, me, me.ClientSocket, recipient);
  }

  /** What `HandleAt` writes for a private message or a format error is the
      per-read delivery of that command. */
  twostate lemma AtWrites(new cs: seq<ClientHandler>, me: ClientHandler, new command: Command)
    requires old(allocated(cs))
    requires command.Private? || command.PrivateFormatError?
    requires forall d | d in cs :: old(d.Username) == d.Username && old(d.ClientSocket) == d.ClientSocket
    requires old(me.Username) == me.Username && old(me.ClientSocket) == me.ClientSocket
    requires command.PrivateFormatError? ==> DeliveredTo(cs + [me], me, command.reply)
    requires command.Private? ==>
      var target := old(FindByName(cs, command.recipient));
      var text := PrivateText(UserLabel(me.Username), PrivateText(UserLabel(me.Username), command.content));
      if target.Some? then DeliveredTo(cs + [me], target.value, text)
      else DeliveredTo(cs + [me], me, NotFoundReply(command.recipient))
    ensures forall c | c in cs + [me] :: c.outbox == old(c.outbox) + Delivery(cs, me, me.ClientSocket, command, c)
  {
    forall c | c in cs + [me]
      ensures c.outbox == old(c.outbox) + Delivery(cs, me, me.ClientSocket, command, c)
    {
      if command.Private? {
        PrivateDelivery(cs, me, command.recipient, command.content, c);
      }
    }
  }

  /** Writing `done` and then `step` is writing `done + step`. */
  lemma Appended(before: seq<string>, done: seq<string>, step: seq<string>)
    ensures before + done + step == before + (done + step)
  {
  }

  /** One more read of the loop appends what it delivers. */
  lemma DeliveriesExtend(v: seq<Peer>, me: ClientHandler, meName: Option<string>, meSocket: Socket, receives: seq<ReadResult>, i: nat, c: ClientHandler)
    requires 1 <= i < |receives|
    ensures DeliveriesIn(v, me, meName, meSocket, receives[1..i + 1], c)
      == DeliveriesIn(v, me, meName, meSocket, receives[1..i], c) + ReadDeliveryIn(v, me, meName, meSocket, receives[i], c)
  {
    var run := receives[1..i + 1];
    assert run[..|run| - 1] == receives[1..i] && run[|run| - 1] == receives[i];
  }

  /** What a session writes to the handlers depends only on their names and on the
      sockets of the others, so it is the same in any later state that kept those. */
  twostate lemma SessionKept(new cs: seq<ClientHandler>, me: ClientHandler, new socket: Socket, new run: seq<ReadResult>)
    requires old(allocated(cs)) && old(allocated(socket))
    requires forall d | d in cs :: old(d.Username) == d.Username
    requires forall d | d in cs && d != me :: old(d.ClientSocket) == d.ClientSocket
    requires old(me.Username) == me.Username
    ensures forall c | c in cs + [me] :: old(Pushed(cs, me, socket, c)) == Pushed(cs, me, socket, c)
    ensures forall c | c in cs + [me] :: old(Deliveries(cs, me, socket, run, c)) == Deliveries(cs, me, socket, run, c)
  {
    assert old(View(cs, me, socket)) == View(cs, me, socket);
    forall c | c in cs + [me]
      ensures old(Pushed(cs, me, socket, c)) == Pushed(cs, me, socket, c)
    {
    }
  }

  /** The same holds for the departure writes, which depend on the names alone. */
  twostate lemma DepartureKept(new cs: seq<ClientHandler>, me: ClientHandler)
    requires old(allocated(cs))
    requires forall d | d in cs :: old(d.Username) == d.Username
    requires old(me.Username) == me.Username
    requires forall d | d in cs && d != me :: old(d.ClientSocket) == d.ClientSocket
    ensures forall c | c in cs + [me] :: old(Departure(cs, me, c)) == Departure(cs, me, c)
  {
  }

  /** `RemoveClient` on a list without repeats writes to each handler what
      `Departure` says. */
  twostate lemma RemovalWrites(new cs: seq<ClientHandler>, me: ClientHandler)
    requires old(allocated(cs))
    requires Distinct(cs)
    requires forall d | d in cs :: old(d.Username) == d.Username && old(d.ClientSocket) == d.ClientSocket
    requires old(me.Username) == me.Username && me.outbox == old(me.outbox)
    requires if me in cs && me.Username.Some? then
        Broadcasted(RemoveFirst(cs, me),
          [ActiveUsersMessage(old(Names(RemoveFirst(cs, me)))), DepartureNotice(me.Username.value)])
      else Untouched(RemoveFirst(cs, me))
    ensures forall c | c in cs + [me] :: c.outbox == old(c.outbox) + old(Departure(cs, me, c))
  {
    RemoveFirstMembers(cs, me);
    forall c | c in cs + [me]
      ensures c.outbox == old(c.outbox) + old(Departure(cs, me, c))
    {
      if c != me {
        assert c in RemoveFirst(cs, me);
      }
    }
  }

  /** What the handshake of `me` writes to `c`: the reply of `outcome`, to `me` alone. */
  function HandshakeWrites(me: ClientHandler, meSocket: Socket, outcome: HandshakeOutcome, c: ClientHandler): seq<string> {
    if c == me && HandshakeReply(outcome).Some? then Sent(meSocket, HandshakeReply(outcome).value) else []
  }

  /** What the roster push after the login of `me` writes to `c`. */
  ghost function Pushed(cs: seq<ClientHandler>, me: ClientHandler, meSocket: Socket, c: ClientHandler): seq<string>
    reads cs`Username, (set d | d in cs && d != me)`ClientSocket
  {
    if ReachedAs(cs, me, meSocket, c) then [ActiveUsersMessage(Names(cs))] else []
  }

  /** What removing `me` from `cs` writes to `c`: when `me` was listed and logged in,
      every other reached handler gets the roster without `me`, then the departure
      notice. */
  ghost function Departure(cs: seq<ClientHandler>, me: ClientHandler, c: ClientHandler): seq<string>
    reads cs`Username, me`Username, (set d | d in cs && d != me)`ClientSocket
  {
    if me in cs && me.Username.Some? && c != me && ReachedAs(cs, me, NoSocket, c) then
      [ActiveUsersMessage(Names(RemoveFirst(cs, me))), DepartureNotice(me.Username.value)]
    else []
  }

  /** How a receive loop ended. */
  datatype SessionEnd =
    | Pending                      // no further read has completed yet
    | Refused                      // the handshake did not log anybody in
    | Ended(readsUsed: nat)        // the loop stopped; the handler is cleaned up

  /** The server side of one connection. */
  class ClientHandler {
    var ClientSocket: Socket
    var Username: Option<string>
    /** Everything written to this client's socket, in order. */
    var outbox: seq<string>
    const serverWindow: ChatServer
    const authenticationManager: Credentials.AuthenticationManager

    constructor (socket: Socket, window: ChatServer, authManager: Credentials.AuthenticationManager)
      ensures ClientSocket == socket && Username == None && outbox == []
      ensures serverWindow == window && authenticationManager == authManager
    {
      ClientSocket := socket;
      Username := None;
      outbox := [];
      serverWindow := window;
      authenticationManager := authManager;
    }

    /** Writes `message` when a connected socket is held; otherwise returns at once. */
    method SendMessage(message: string)
      modifies this`outbox
      ensures outbox == old(outbox) + Sent(ClientSocket, message)
    {
      if ClientSocket.NoSocket? || !ClientSocket.connected {
        return;
      }
      outbox := outbox + [message];
    }

    /** The handshake's send. Its guard is empty: on a null or disconnected socket the
        send itself throws, the exception is logged, and nothing is written. */
    method SendMessageAsync(message: string)
      modifies this`outbox
      ensures outbox == old(outbox) + Sent(ClientSocket, message)
    {
      if CanSend(ClientSocket) {
        outbox := outbox + [message];
      }
    }

    method SendActiveUsersList(activeUsersListString: string)
      modifies this`outbox
      ensures outbox == old(outbox) + Sent(ClientSocket, activeUsersListString)
    {
      SendMessage(activeUsersListString);
    }

    /** One connection from the handshake to the clean-up. `receives` are the
        receive calls that completed, in order: the first is the handshake, the rest feed the receive
        loop. When they run out while the loop still waits, nothing is cleaned up;
        otherwise the handler leaves the list and drops its socket. */
    method HandleClient(receives: seq<ReadResult>) returns (end: SessionEnd)
      requires serverWindow.Valid()
      requires ClientSocket.Open?
      modifies this, serverWindow`connectedClients, serverWindow.connectedClients`outbox
      ensures serverWindow.Valid()
      ensures receives == [] ==> end == Pending && Username == old(Username) && ClientSocket == old(ClientSocket)
      ensures receives != [] ==>
        var outcome := old(Handshake(receives[0], authenticationManager.users, OtherNames(serverWindow.connectedClients, this)));
        && (end.Refused? <==> !outcome.Accepted?)
        && (outcome.Accepted? ==> Username == Some(outcome.username))
        && (!outcome.Accepted? ==> Username == old(Username))
      ensures end.Pending? ==> serverWindow.connectedClients == old(serverWindow.connectedClients)
      ensures end.Pending? && receives != [] ==>
        CanSend(old(ClientSocket)) && LoopContinues(receives, |receives|)
      ensures !end.Pending? ==>
        serverWindow.connectedClients == RemoveFirst(old(serverWindow.connectedClients), this)
        && ClientSocket == NoSocket
      ensures end.Ended? ==>
        && 1 <= end.readsUsed <= |receives|
        && LoopContinues(receives, end.readsUsed - 1)
        && (CanSend(old(ClientSocket)) ==> LoopStops(receives, end.readsUsed))
      ensures receives == [] ==> Untouched(old(serverWindow.connectedClients) + [this])
      ensures receives != [] ==>
        var cs := old(serverWindow.connectedClients);
        var outcome := old(Handshake(receives[0], authenticationManager.users, OtherNames(serverWindow.connectedClients, this)));
        forall c | c in cs + [this] ::
          && (end.Refused? ==>
                c.outbox == old(c.outbox) + HandshakeWrites(this, old(ClientSocket), outcome, c) + Departure(cs, this, c))
          && (end.Pending? ==>
                c.outbox == old(c.outbox) + HandshakeWrites(this, old(ClientSocket), outcome, c)
                  + Pushed(cs, this, old(ClientSocket), c) + Deliveries(cs, this, old(ClientSocket), receives[1..], c))
          && (end.Ended? ==>
                c.outbox == old(c.outbox) + HandshakeWrites(this, old(ClientSocket), outcome, c)
                  + Pushed(cs, this, old(ClientSocket), c) + Deliveries(cs, this, old(ClientSocket), receives[1..end.readsUsed], c)
                  + Departure(cs, this, c))
    {
      if receives == [] {
        return Pending;
      }
      end := Connect(receives);
    }

    /** A connection whose first receive completed: the handshake, then the session. */
    method Connect(receives: seq<ReadResult>) returns (end: SessionEnd)
      requires serverWindow.Valid()
      requires ClientSocket.Open?
      requires receives != []
      modifies this, serverWindow`connectedClients, serverWindow.connectedClients`outbox
      ensures serverWindow.Valid()
      ensures var outcome := old(Handshake(receives[0], authenticationManager.users, OtherNames(serverWindow.connectedClients, this)));
        && (end.Refused? <==> !outcome.Accepted?)
        && (outcome.Accepted? ==> Username == Some(outcome.username))
        && (!outcome.Accepted? ==> Username == old(Username))
      ensures end.Pending? ==> serverWindow.connectedClients == old(serverWindow.connectedClients)
      ensures end.Pending? ==>
        CanSend(old(ClientSocket)) && LoopContinues(receives, |receives|)
      ensures !end.Pending? ==>
        serverWindow.connectedClients == RemoveFirst(old(serverWindow.connectedClients), this)
        && ClientSocket == NoSocket
      ensures end.Ended? ==>
        && 1 <= end.readsUsed <= |receives|
        && LoopContinues(receives, end.readsUsed - 1)
        && (CanSend(old(ClientSocket)) ==> LoopStops(receives, end.readsUsed))
      ensures var cs := old(serverWindow.connectedClients);
        var outcome := old(Handshake(receives[0], authenticationManager.users, OtherNames(serverWindow.connectedClients, this)));
        forall c | c in cs + [this] ::
          && (end.Refused? ==>
                c.outbox == old(c.outbox) + HandshakeWrites(this, old(ClientSocket), outcome, c) + Departure(cs, this, c))
          && (end.Pending? ==>
                c.outbox == old(c.outbox) + HandshakeWrites(this, old(ClientSocket), outcome, c)
                  + Pushed(cs, this, old(ClientSocket), c) + Deliveries(cs, this, old(ClientSocket), receives[1..], c))
          && (end.Ended? ==>
                c.outbox == old(c.outbox) + HandshakeWrites(this, old(ClientSocket), outcome, c)
                  + Pushed(cs, this, old(ClientSocket), c) + Deliveries(cs, this, old(ClientSocket), receives[1..end.readsUsed], c)
                  + Departure(cs, this, c))
    {
      ghost var cs := serverWindow.connectedClients;
      ghost var outcome := Handshake(receives[0], authenticationManager.users, OtherNames(serverWindow.connectedClients, this));
      var authenticated := AuthenticateClient(receives[0]);
      assert authenticated ==> Username == Some(outcome.username) && ClientSocket == old(ClientSocket);
      ghost var loggedIn := ClientSocket;
      forall c | c in cs + [this]
        ensures c.outbox == old(c.outbox) + HandshakeWrites(this, old(ClientSocket), outcome, c)
      {
      }
      label Handshaken:
      end := Session(authenticated, receives);
      assert end.Pending? || end.Ended? ==> authenticated && loggedIn == old(ClientSocket);
    }

    /** Everything after the handshake: an accepted login runs the receive loop; the
        clean-up follows unless the receives ran out while the loop still waits. */
    method Session(authenticated: bool, receives: seq<ReadResult>) returns (end: SessionEnd)
      requires serverWindow.Valid()
      requires |receives| >= 1
      modifies this`ClientSocket, this`outbox, serverWindow`connectedClients, serverWindow.connectedClients`outbox
      ensures serverWindow.Valid()
      ensures Username == old(Username)
      ensures end.Refused? <==> !authenticated
      ensures end.Pending? ==>
        && serverWindow.connectedClients == old(serverWindow.connectedClients)
        && ClientSocket == old(ClientSocket)
        && CanSend(ClientSocket) && LoopContinues(receives, |receives|)
      ensures !end.Pending? ==>
        serverWindow.connectedClients == RemoveFirst(old(serverWindow.connectedClients), this)
        && ClientSocket == NoSocket
      ensures end.Ended? ==>
        && 1 <= end.readsUsed <= |receives|
        && LoopContinues(receives, end.readsUsed - 1)
        && (CanSend(old(ClientSocket)) ==> LoopStops(receives, end.readsUsed))
      ensures end.Refused? ==> forall c | c in old(serverWindow.connectedClients) + [this] ::
        c.outbox == old(c.outbox) + Departure(old(serverWindow.connectedClients), this, c)
      ensures end.Pending? ==> forall c | c in old(serverWindow.connectedClients) + [this] ::
        c.outbox == old(c.outbox) + Pushed(old(serverWindow.connectedClients), this, old(ClientSocket), c)
          + Deliveries(old(serverWindow.connectedClients), this, old(ClientSocket), receives[1..], c)
      ensures end.Ended? ==> forall c | c in old(serverWindow.connectedClients) + [this] ::
        c.outbox == old(c.outbox) + Pushed(old(serverWindow.connectedClients), this, old(ClientSocket), c)
          + Deliveries(old(serverWindow.connectedClients), this, old(ClientSocket), receives[1..end.readsUsed], c)
          + Departure(old(serverWindow.connectedClients), this, c)
    {
      if authenticated {
        ghost var cs, socket := serverWindow.connectedClients, ClientSocket;
        end := Run(receives);
        SessionKept(cs, this, socket, if end.Ended? then receives[1..end.readsUsed] else receives[1..]);
      } else {
        Finish();
        end := Refused;
      }
    }

    /** The session of an accepted login: the roster push and the receive loop, then
        the clean-up unless the receives ran out while the loop still waits. */
    method Run(receives: seq<ReadResult>) returns (end: SessionEnd)
      requires serverWindow.Valid()
      requires |receives| >= 1
      modifies this`ClientSocket, this`outbox, serverWindow`connectedClients, serverWindow.connectedClients`outbox
      ensures serverWindow.Valid()
      ensures Username == old(Username)
      ensures !end.Refused?
      ensures end.Pending? ==>
        && serverWindow.connectedClients == old(serverWindow.connectedClients)
        && ClientSocket == old(ClientSocket)
        && CanSend(ClientSocket) && LoopContinues(receives, |receives|)
      ensures end.Ended? ==>
        && serverWindow.connectedClients == RemoveFirst(old(serverWindow.connectedClients), this)
        && ClientSocket == NoSocket
        && 1 <= end.readsUsed <= |receives|
        && LoopContinues(receives, end.readsUsed - 1)
        && (CanSend(old(ClientSocket)) ==> LoopStops(receives, end.readsUsed))
      ensures end.Pending? ==> forall c | c in old(serverWindow.connectedClients) + [this] ::
        c.outbox == old(c.outbox) + old(Pushed(serverWindow.connectedClients, this, ClientSocket, c))
          + old(Deliveries(serverWindow.connectedClients, this, ClientSocket, receives[1..], c))
      ensures end.Ended? ==> forall c | c in old(serverWindow.connectedClients) + [this] ::
        c.outbox == old(c.outbox) + old(Pushed(serverWindow.connectedClients, this, ClientSocket, c))
          + old(Deliveries(serverWindow.connectedClients, this, ClientSocket, receives[1..end.readsUsed], c))
          + Departure(old(serverWindow.connectedClients), this, c)
    {
      var readsUsed, waiting := Serve(receives);
      if waiting {
        assert receives[1..readsUsed] == receives[1..];
        return Pending;
      }
      Finish();
      end := Ended(readsUsed);
    }

    /** The `finally` block: leave the list, then shut down, close and drop the socket. */
    method Finish()
      requires serverWindow.Valid()
      modifies this`ClientSocket, serverWindow`connectedClients, serverWindow.connectedClients`outbox
      ensures serverWindow.Valid()
      ensures serverWindow.connectedClients == RemoveFirst(old(serverWindow.connectedClients), this)
      ensures Username == old(Username) && ClientSocket == NoSocket
      ensures outbox == old(outbox)
      ensures forall c | c in old(serverWindow.connectedClients) + [this] ::
        c.outbox == old(c.outbox) + Departure(old(serverWindow.connectedClients), this, c)
    {
      ghost var cs := serverWindow.connectedClients;
      serverWindow.RemoveClient(this);
      RemovalWrites(cs, this);
      ClientSocket := NoSocket;
      DepartureKept(cs, this);
    }

    /** What follows a successful login: the roster goes to everybody, then the receive
        loop runs over `receives[1..]` while the socket is connected, and stops after a
        zero-byte read, an error or the disconnect command. `waiting` means the
        receives ran out first. */
    method Serve(receives: seq<ReadResult>) returns (readsUsed: nat, waiting: bool)
      requires serverWindow.Valid()
      requires |receives| >= 1
      modifies serverWindow.connectedClients`outbox, this`outbox
      ensures serverWindow.Valid()
      ensures Username == old(Username) && ClientSocket == old(ClientSocket)
      ensures 1 <= readsUsed <= |receives|
      ensures LoopContinues(receives, readsUsed - 1)
      ensures waiting ==> readsUsed == |receives| && CanSend(ClientSocket) && LoopContinues(receives, |receives|)
      ensures !waiting && CanSend(ClientSocket) ==> LoopStops(receives, readsUsed)
      ensures !CanSend(ClientSocket) ==> readsUsed == 1 && !waiting
      ensures forall c | c in serverWindow.connectedClients + [this] ::
        c.outbox == old(c.outbox) + old(Pushed(serverWindow.connectedClients, this, ClientSocket, c))
          + old(Deliveries(serverWindow.connectedClients, this, ClientSocket, receives[1..readsUsed], c))
    {
      PushRoster();
      label Pushed:
      readsUsed, waiting := ReceiveLoop(receives);
      ghost var cs, run := serverWindow.connectedClients, receives[1..readsUsed];
      assert View(cs, this, ClientSocket) == old(View(cs, this, ClientSocket));
    }

    /** The roster push that opens a session: `BroadcastActiveUsers` over the list. */
    method PushRoster()
      requires serverWindow.Valid()
      modifies serverWindow.connectedClients`outbox
      ensures serverWindow.Valid()
      ensures forall c | c in serverWindow.connectedClients + [this] ::
        c.outbox == old(c.outbox) + old(Pushed(serverWindow.connectedClients, this, ClientSocket, c))
    {
      serverWindow.BroadcastActiveUsers();
    }

    /** The receive loop over `receives[1..]`: it runs while the socket is connected
        and stops after a zero-byte read, an error or the disconnect command. */
    method ReceiveLoop(receives: seq<ReadResult>) returns (readsUsed: nat, waiting: bool)
      requires serverWindow.Valid()
      requires |receives| >= 1
      modifies serverWindow.connectedClients`outbox, this`outbox
      ensures serverWindow.Valid()
      ensures Username == old(Username) && ClientSocket == old(ClientSocket)
      ensures 1 <= readsUsed <= |receives|
      ensures LoopContinues(receives, readsUsed - 1)
      ensures waiting ==> readsUsed == |receives| && CanSend(ClientSocket) && LoopContinues(receives, |receives|)
      ensures !waiting && CanSend(ClientSocket) ==> LoopStops(receives, readsUsed)
      ensures !CanSend(ClientSocket) ==> readsUsed == 1 && !waiting
      ensures forall c | c in serverWindow.connectedClients + [this] ::
        c.outbox == old(c.outbox) + Deliveries(serverWindow.connectedClients, this, ClientSocket, receives[1..readsUsed], c)
    {
      readsUsed := 1;
      var stop := false;
      ghost var cs, view := serverWindow.connectedClients, View(serverWindow.connectedClients, this, ClientSocket);
      while !stop && readsUsed < |receives| && CanSend(ClientSocket)
        invariant 1 <= readsUsed <= |receives|
        invariant serverWindow.Valid()
        invariant Username == old(Username) && ClientSocket == old(ClientSocket)
        invariant readsUsed > 1 ==> CanSend(ClientSocket)
        invariant LoopContinues(receives, readsUsed - 1)
        invariant stop <==> readsUsed > 1 && EndsSession(receives[readsUsed - 1])
        invariant serverWindow.connectedClients == cs && View(cs, this, ClientSocket) == view
        invariant forall c | c in cs + [this] ::
          c.outbox == old(c.outbox) + DeliveriesIn(view, this, Username, ClientSocket, receives[1..readsUsed], c)
        decreases |receives| - readsUsed
      {
        label Turn:
        stop := ReceiveOne(receives[readsUsed]);
        assert View(cs, this, ClientSocket) == view;
        forall c | c in cs + [this]
          ensures c.outbox == old(c.outbox) + DeliveriesIn(view, this, Username, ClientSocket, receives[1..readsUsed + 1], c)
        {
          var done, step := DeliveriesIn(view, this, Username, ClientSocket, receives[1..readsUsed], c),
            ReadDeliveryIn(view, this, Username, ClientSocket, receives[readsUsed], c);
          assert c.outbox == old@Turn(c.outbox) + step;
          DeliveriesExtend(view, this, Username, ClientSocket, receives, readsUsed, c);
          Appended(old(c.outbox), done, step);
        }
        readsUsed := readsUsed + 1;
        LoopContinuesStep(receives, readsUsed - 1);
      }
      waiting := !stop && CanSend(ClientSocket);
      if waiting {
        LoopContinuesStep(receives, readsUsed);
      }
    }

    /** One turn of the receive loop: a zero-byte read or an error stops it; a
        payload is dispatched, and the disconnect command stops it too. */
    method ReceiveOne(received: ReadResult) returns (stop: bool)
      requires serverWindow.Valid()
      modifies serverWindow.connectedClients`outbox, this`outbox
      ensures serverWindow.Valid()
      ensures stop <==> EndsSession(received)
      ensures Username == old(Username) && ClientSocket == old(ClientSocket)
      ensures forall c | c in serverWindow.connectedClients + [this] ::
        c.outbox == old(c.outbox) + ReadDeliveryIn(View(serverWindow.connectedClients, this, ClientSocket), this, Username, ClientSocket, received, c)
    {
      match received {
        case Closed =>
          stop := true;
        case Error =>
          stop := true;
        case Data(receivedMessage) =>
          stop := HandleReceived(receivedMessage);
      }
    }

    /** The LOGIN handshake on the first read. Only an accepted login sets the
        username and keeps the socket; every other ending drops the socket, after
        the matching reply when there is one. */
    method AuthenticateClient(first: ReadResult) returns (ok: bool)
      requires serverWindow.Valid()
      requires ClientSocket.Open?
      modifies this`ClientSocket, this`Username, this`outbox
      ensures serverWindow.Valid()
      ensures var outcome := old(Handshake(first, authenticationManager.users, OtherNames(serverWindow.connectedClients, this)));
        && (ok <==> outcome.Accepted?)
        && (outcome.Accepted? ==>
              Username == Some(outcome.username) && ClientSocket == old(ClientSocket)
              && outbox == old(outbox) + Sent(ClientSocket, LoginSuccessReply))
        && (outcome.Rejected? ==>
              Username == old(Username) && ClientSocket == NoSocket
              && outbox == old(outbox) + Sent(old(ClientSocket), outcome.reply))
        && (outcome.NoReply? ==>
              Username == old(Username) && ClientSocket == NoSocket && outbox == old(outbox))
    {
      match first {
        case Closed =>
          ClientSocket := NoSocket;
          return false;
        case Error =>
          ClientSocket := NoSocket;
          return false;
        case Data(receivedData) =>
          ok := Login(receivedData);
      }
    }

    /** The handshake once the first read returned data. */
    method Login(receivedData: Payload) returns (ok: bool)
      requires serverWindow.Valid()
      modifies this`ClientSocket, this`Username, this`outbox
      ensures serverWindow.Valid()
      ensures var outcome := old(Handshake(Data(receivedData), authenticationManager.users, OtherNames(serverWindow.connectedClients, this)));
        && (ok <==> outcome.Accepted?)
        && (outcome.Accepted? ==>
              Username == Some(outcome.username) && ClientSocket == old(ClientSocket)
              && outbox == old(outbox) + Sent(ClientSocket, LoginSuccessReply))
        && (outcome.Rejected? ==>
              Username == old(Username) && ClientSocket == NoSocket
              && outbox == old(outbox) + Sent(old(ClientSocket), outcome.reply))
    {
      if StartsWith(receivedData, LoginPrefix) {
        var parts := SplitN(receivedData, ':', 3);
        if |parts| == 3 {
          var usernameAttempt := parts[1];
          var passwordAttempt := parts[2];
          var authenticated := authenticationManager.AuthenticateUser(usernameAttempt, passwordAttempt);
          if authenticated {
            var isAlreadyLoggedIn := NameTaken(OtherNames(serverWindow.connectedClients, this), usernameAttempt);
            if isAlreadyLoggedIn {
              Reject(AlreadyLoggedInReply);
              return false;
            } else {
              Admit(usernameAttempt);
              return true;
            }
          } else {
            Reject(LoginFailedReply);
            return false;
          }
        } else {
          Reject(LoginFormatErrorReply);
          return false;
        }
      } else {
        Reject(LoginRequiredReply);
        return false;
      }
    }

    /** The ending of every refused handshake: the reply, then shutdown, close and
        dropping the socket. */
    method Reject(reply: string)
      modifies this`ClientSocket, this`outbox
      ensures outbox == old(outbox) + Sent(old(ClientSocket), reply)
      ensures ClientSocket == NoSocket
    {
      SendMessageAsync(reply);
      ClientSocket := NoSocket;
    }

    /** A successful login: the name is taken and LOGIN_SUCCESS is sent. */
    method Admit(usernameAttempt: string)
      requires serverWindow.Valid()
      requires !NameTaken(OtherNames(serverWindow.connectedClients, this), usernameAttempt)
      modifies this`Username, this`outbox
      ensures serverWindow.Valid()
      ensures Username == Some(usernameAttempt)
      ensures outbox == old(outbox) + Sent(ClientSocket, LoginSuccessReply)
    {
      var cs := serverWindow.connectedClients;
      ghost var others := OtherNames(cs, this);
      Username := Some(usernameAttempt);
      SendMessageAsync(LoginSuccessReply);
      forall a, b | a in cs && b in cs && a != b && a.Username.Some? && b.Username.Some?
        ensures !EqualsIgnoreCase(a.Username.value, b.Username.value)
      {
        if a == this {
          assert b.Username.value in others;
        } else if b == this {
          assert a.Username.value in others;
        }
      }
    }

    /** The dispatch of one received payload inside the receive loop. Returns true
        when the payload is the disconnect command. */
    method HandleReceived(receivedMessage: Payload) returns (disconnect: bool)
      requires serverWindow.Valid()
      modifies serverWindow.connectedClients`outbox, this`outbox
      ensures serverWindow.Valid()
      ensures disconnect <==> Route(receivedMessage).Disconnect?
      ensures Username == old(Username) && ClientSocket == old(ClientSocket)
      ensures match Route(receivedMessage)
        case Disconnect => Untouched(serverWindow.connectedClients + [this])
        case Broadcast(message) =>
          Broadcasted(serverWindow.connectedClients, [message])
          && (this !in serverWindow.connectedClients ==> outbox == old(outbox))
        case PrivateFormatError(reply) =>
          DeliveredTo(serverWindow.connectedClients + [this], this, reply)
        case Private(recipient, content) =>
          var target := old(FindByName(serverWindow.connectedClients, recipient));
          var text := PrivateText(UserLabel(Username), PrivateText(UserLabel(Username), content));
          if target.Some? then DeliveredTo(serverWindow.connectedClients + [this], target.value, text)
          else DeliveredTo(serverWindow.connectedClients + [this], this, NotFoundReply(recipient))
      ensures forall c | c in serverWindow.connectedClients + [this] ::
        c.outbox == old(c.outbox) + Delivery(serverWindow.connectedClients, this, ClientSocket, Route(receivedMessage), c)
    {
      ghost var cs := serverWindow.connectedClients;
      if ToUpper(receivedMessage) == DisconnectCommand {
        return true;
      } else if StartsWith(receivedMessage, "@") {
        assert Route(receivedMessage) == AtCommand(receivedMessage);
        HandleAt(receivedMessage);
        AtWrites(cs, this, AtCommand(receivedMessage));
      } else {
        serverWindow.BroadcastMessage(receivedMessage);
        forall c | c in cs + [this]
          ensures c.outbox == old(c.outbox) + Delivery(cs, this, ClientSocket, Route(receivedMessage), c)
        {
          BroadcastDelivery(cs, this, receivedMessage, c);
        }
      }
      return false;
    }

    /** A payload starting with '@': a private message for the name up to the first
        space, or one of the two format errors back to the sender. */
    method HandleAt(receivedMessage: Payload)
      requires serverWindow.Valid()
      requires StartsWith(receivedMessage, "@")
      modifies serverWindow.connectedClients`outbox, this`outbox
      ensures serverWindow.Valid()
      ensures Username == old(Username) && ClientSocket == old(ClientSocket)
      ensures AtCommand(receivedMessage).PrivateFormatError? ==>
        DeliveredTo(serverWindow.connectedClients + [this], this, AtCommand(receivedMessage).reply)
      ensures AtCommand(receivedMessage).Private? ==>
        var recipient := AtCommand(receivedMessage).recipient;
        var target := old(FindByName(serverWindow.connectedClients, recipient));
        var text := PrivateText(UserLabel(Username), PrivateText(UserLabel(Username), AtCommand(receivedMessage).content));
        if target.Some? then DeliveredTo(serverWindow.connectedClients + [this], target.value, text)
        else DeliveredTo(serverWindow.connectedClients + [this], this, NotFoundReply(recipient))
    {
      var parts := SplitN(receivedMessage, ' ', 2);
      if |parts| == 2 {
        AtSplitShape(receivedMessage);
        var recipientUsername := parts[0][1..];
        var privateMessageContent := parts[1];
        if !IsBlank(recipientUsername) {
          serverWindow.SendPrivateMessage(recipientUsername, PrivateText(UserLabel(Username), privateMessageContent), this);
        } else {
          SendMessage(MissingRecipientReply);
        }
      } else {
        SendMessage(MissingSpaceReply);
      }
    }
  }

  /** The server window: the connected handlers and the credential store. */
  class ChatServer {
    var connectedClients: seq<ClientHandler>
    const authenticationManager: Credentials.AuthenticationManager

    ghost predicate Valid()
      reads this, connectedClients
    {
      Distinct(connectedClients) && UniqueNames(connectedClients)
    }

    /** Starts with no clients and a store loaded from users.txt. */
    constructor (file: Credentials.UsersFile)
      ensures Valid() && connectedClients == []
      ensures fresh(authenticationManager)
      ensures authenticationManager.users == if file.Lines? then Credentials.LoadLines(map[], file.lines) else map[]
    {
      connectedClients := [];
      authenticationManager := new Credentials.AuthenticationManager(file);
    }

    /** One turn of the accept loop: a new handler, not yet logged in, joins the list. */
    method AcceptClient(clientSocket: Socket) returns (clientHandler: ClientHandler)
      requires Valid()
      modifies this
      ensures Valid()
      ensures fresh(clientHandler) && connectedClients == old(connectedClients) + [clientHandler]
      ensures clientHandler.ClientSocket == clientSocket && clientHandler.Username == None
      ensures clientHandler.outbox == [] && clientHandler.serverWindow == this
      ensures clientHandler.authenticationManager == authenticationManager
    {
      clientHandler := new ClientHandler(clientSocket, this, authenticationManager);
      connectedClients := connectedClients + [clientHandler];
    }

    /** Sends `message` to every authenticated handler, the sender included. */
    method BroadcastMessage(message: string)
      requires Valid()
      modifies connectedClients`outbox
      ensures Valid()
      ensures Broadcasted(connectedClients, [message])
    {
      var clientsToSendTo := Authenticated(connectedClients);
      var i := 0;
      while i < |clientsToSendTo|
        invariant 0 <= i <= |clientsToSendTo|
        invariant forall c | c in connectedClients ::
          c.outbox == old(c.outbox) + (if c in clientsToSendTo[..i] && CanSend(c.ClientSocket) then [message] else [])
      {
        assert clientsToSendTo[i] in clientsToSendTo;
        clientsToSendTo[i].SendMessage(message);
        i := i + 1;
      }
      assert clientsToSendTo[..i] == clientsToSendTo;
    }

    /** Delivers `message`, wrapped once more with the sender's name, to the first
        authenticated handler whose name matches ignoring case; when there is none
        the sender is told so. */
    method SendPrivateMessage(recipientUsername: string, message: string, sender: ClientHandler)
      requires Valid()
      modifies connectedClients`outbox, sender`outbox
      ensures Valid()
      ensures var recipient := old(FindByName(connectedClients, recipientUsername));
        if recipient.Some? then
          DeliveredTo(connectedClients + [sender], recipient.value, PrivateText(UserLabel(sender.Username), message))
        else
          DeliveredTo(connectedClients + [sender], sender, NotFoundReply(recipientUsername))
    {
      var recipient := FindByName(connectedClients, recipientUsername);
      if recipient.Some? {
        var formattedMessage := PrivateText(UserLabel(sender.Username), message);
        recipient.value.SendMessage(formattedMessage);
      } else {
        sender.SendMessage(NotFoundReply(recipientUsername));
      }
    }

    /** Sends the roster of authenticated names to every authenticated handler. */
    method BroadcastActiveUsers()
      requires Valid()
      modifies connectedClients`outbox
      ensures Valid()
      ensures Broadcasted(connectedClients, [ActiveUsersMessage(old(Names(connectedClients)))])
    {
      var activeClients := Authenticated(connectedClients);
      var activeUsersListString := ActiveUsersMessage(UsernamesOf(activeClients));
      var i := 0;
      while i < |activeClients|
        invariant 0 <= i <= |activeClients|
        invariant forall c | c in connectedClients ::
          c.outbox == old(c.outbox) + (if c in activeClients[..i] && CanSend(c.ClientSocket) then [activeUsersListString] else [])
      {
        assert activeClients[i] in activeClients;
        activeClients[i].SendActiveUsersList(activeUsersListString);
        i := i + 1;
      }
      assert activeClients[..i] == activeClients;
    }

    /** What a logged-in user's removal triggers: the new roster, then the
        departure notice, each to every authenticated handler. */
    method AnnounceDeparture(departed: string)
      requires Valid()
      modifies connectedClients`outbox
      ensures Valid()
      ensures Broadcasted(connectedClients,
        [ActiveUsersMessage(old(Names(connectedClients))), DepartureNotice(departed)])
    {
      ghost var roster := ActiveUsersMessage(Names(connectedClients));
      BroadcastActiveUsers();
      label Listed:
      BroadcastMessage(DepartureNotice(departed));
      forall c | c in connectedClients
        ensures c.outbox == old(c.outbox) + (if Reached(c) then [roster, DepartureNotice(departed)] else [])
      {
        AppendInTurn(old(c.outbox), old@Listed(c.outbox), c.outbox, roster, DepartureNotice(departed), Reached(c));
      }
    }

    /** Drops `client` from the list. When it was there and logged in, the remaining
        users get the new roster and then the departure notice. */
    method RemoveClient(client: ClientHandler)
      requires Valid()
      modifies this`connectedClients, connectedClients`outbox
      ensures Valid()
      ensures connectedClients == RemoveFirst(old(connectedClients), client)
      ensures client !in connectedClients
      ensures client.outbox == old(client.outbox)
      ensures if client in old(connectedClients) && old(client.Username).Some? then
          Broadcasted(connectedClients,
            [ActiveUsersMessage(old(Names(RemoveFirst(connectedClients, client)))), DepartureNotice(client.Username.value)])
        else Untouched(connectedClients)
    {
      ghost var roster := Names(RemoveFirst(connectedClients, client));
      var removed, at := Remove(client);
      assert Names(connectedClients) == roster;
      if removed && client.Username.Some? {
        AnnounceDeparture(client.Username.value);
      }
    }

    /** `List.Remove`: a linear search for `client`, then cutting it out of the list
        at the index `at` where it was found. */
    method Remove(client: ClientHandler) returns (removed: bool, ghost at: nat)
      requires Valid()
      modifies this`connectedClients
      ensures Valid()
      ensures removed <==> client in old(connectedClients)
      ensures connectedClients == RemoveFirst(old(connectedClients), client)
      ensures client !in connectedClients
      ensures removed ==> at < |old(connectedClients)| && connectedClients == old(connectedClients)[..at] + old(connectedClients)[at + 1..]
      ensures !removed ==> connectedClients == old(connectedClients)
    {
      var k := 0;
      while k < |connectedClients| && connectedClients[k] != client
        invariant 0 <= k <= |connectedClients|
        invariant forall j | 0 <= j < k :: connectedClients[j] != client
      {
        k := k + 1;
      }
      removed := k < |connectedClients|;
      at := k;
      RemoveFirstMembers(connectedClients, client);
      if removed {
        RemoveFirstAt(connectedClients, client, k);
        connectedClients := connectedClients[..k] + connectedClients[k + 1..];
      }
      UniqueNamesSubset(old(connectedClients), connectedClients);
    }
  }
}
