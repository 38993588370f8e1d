/**
 * The subscription registry and message fan-out of the relay server
 * (src/server/server.ts): two maps, socket -> subscribed addresses and
 * address -> subscribed sockets, a log of the sends made to sockets, and
 * the message queue of persistence.dfy.
 */
module RelayServer {
  import opened Optional
  import opened MessageModel
  import opened QueueSpec
  import opened QueueStore

  /** A connected client socket, known only by its identity. */
  type Socket = nat

  /** One `socket.send(message)`. */
  datatype Send = Send(socket: Socket, message: Message)

  // ---------------------------------------------------------------- addresses

  function LowerChar(c: char): char
  {
    if 'A' <= c <= 'Z' then (c as int - 'A' as int + 'a' as int) as char else c
  }

  predicate IsLower(s: string)
  {
    forall i :: 0 <= i < |s| ==> !('A' <= s[i] <= 'Z')
  }

  /**
   * `toLowerCase`, on ASCII letters: the result has no upper-case letter,
   * has the input's length, and an address that is already lower case is
   * its own lower-case form.
   */
  function Lower(s: string): (r: string)
    ensures |r| == |s| && IsLower(r)
    ensures IsLower(s) ==> r == s
    ensures forall i :: 0 <= i < |s| && !('A' <= s[i] <= 'Z') ==> r[i] == s[i]
  {
    seq(|s|, i requires 0 <= i < |s| => LowerChar(s[i]))
  }

  // ---------------------------------------------------------------- registry

  /** The two subscription maps (src/server/server.ts:28-29). */
  datatype Registry = Registry(bySocket: map<Socket, seq<string>>, byRecipient: map<string, seq<Socket>>)

  /**
   * What the registry keeps: every address key is lower case and holds each
   * socket once; every socket entry is a non-empty list of lower-case
   * addresses; and a socket listed under an address has that address in its
   * own list.
   */
  predicate RegistryOk(reg: Registry)
  {
    (forall r :: r in reg.byRecipient ==> IsLower(r) && Distinct(reg.byRecipient[r])) &&
    (forall s :: s in reg.bySocket ==>
      reg.bySocket[s] != [] && forall i :: 0 <= i < |reg.bySocket[s]| ==> IsLower(reg.bySocket[s][i])) &&
    (forall r, s :: r in reg.byRecipient && s in reg.byRecipient[r] ==> s in reg.bySocket && r in reg.bySocket[s])
  }

  /** The sockets listed under `key`, or none (`get(key) || []`). */
  function SocketsFor(reg: Registry, key: string): seq<Socket>
  {
    if key in reg.byRecipient then reg.byRecipient[key] else []
  }

  /** The addresses listed for `socket`, or none. */
  function RecipientsOf(reg: Registry, socket: Socket): seq<string>
  {
    if socket in reg.bySocket then reg.bySocket[socket] else []
  }

  /**
   * _handleSubscription's map updates: the socket is added once under the
   * lower-cased address; the lower-cased address is pushed to the socket's
   * list unless the address AS GIVEN is already in it.
   */
  function Subscribed(reg: Registry, socket: Socket, recipient: string): Registry
  {
    var key := Lower(recipient);
    var sockets := SocketsFor(reg, key);
    var recipients := RecipientsOf(reg, socket);
    Registry(
      reg.bySocket[socket := if recipient in recipients then recipients else recipients + [key]],
      reg.byRecipient[key := if socket in sockets then sockets else sockets + [socket]])
  }

  function ElementsOf(xs: seq<string>): set<string>
  {
    set x | x in xs
  }

  /**
   * _handleDisconnect's map updates: every address in the socket's list
   * loses its whole entry, and the socket's own entry goes if it was non-empty.
   */
  function Disconnected(reg: Registry, socket: Socket): Registry
  {
    var recipients := RecipientsOf(reg, socket);
    Registry(
      if |recipients| > 0 then reg.bySocket - {socket} else reg.bySocket,
      reg.byRecipient - ElementsOf(recipients))
  }

  /** One send of `message` to each socket, in list order. */
  function SendAll(sockets: seq<Socket>, message: Message): seq<Send>
  {
    seq(|sockets|, i requires 0 <= i < |sockets| => Send(sockets[i], message))
  }

  /** Each of `messages`, in order, sent to each socket, in list order. */
  function Fanout(sockets: seq<Socket>, messages: seq<Message>): seq<Send>
  {
    if messages == [] then []
    else Fanout(sockets, messages[..|messages| - 1]) + SendAll(sockets, messages[|messages| - 1])
  }

  // ---------------------------------------------------------------- registry properties

  /** After a subscription the socket is listed exactly once under the lower-cased address. */
  lemma SubscribeOnce(reg: Registry, socket: Socket, recipient: string)
    requires RegistryOk(reg)
    ensures var reg' := Subscribed(reg, socket, recipient);
      Lower(recipient) in reg'.byRecipient &&
      multiset(reg'.byRecipient[Lower(recipient)])[socket] == 1
  {
    var sockets := SocketsFor(reg, Lower(recipient));
    DistinctCount(sockets, socket);
    if socket !in sockets {
      assert multiset(sockets + [socket]) == multiset(sockets) + multiset{socket};
    }
  }

  /** A socket that occurs in a list without duplicates occurs once; one that does not occurs never. */
  lemma {:induction false} DistinctCount(ss: seq<Socket>, s: Socket)
    requires Distinct(ss)
    ensures multiset(ss)[s] == if s in ss then 1 else 0
  {
    if ss != [] {
      assert ss == [ss[0]] + ss[1..];
      assert multiset(ss) == multiset{ss[0]} + multiset(ss[1..]);
      assert Distinct(ss[1..]);
      DistinctCount(ss[1..], s);
      assert ss[0] !in ss[1..];
    }
  }

  /**
   * After a subscription the socket's list holds the lower-cased address.
   * Subscribing again with a lower-case address adds nothing; with an
   * address that has upper-case letters the lower-cased form is pushed
   * again, because the membership test uses the address as given.
   */
  lemma SubscribeRecorded(reg: Registry, socket: Socket, recipient: string)
    requires RegistryOk(reg)
    ensures var reg' := Subscribed(reg, socket, recipient);
      socket in reg'.bySocket && Lower(recipient) in reg'.bySocket[socket] &&
      (IsLower(recipient) && recipient in RecipientsOf(reg, socket) ==> reg'.bySocket == reg.bySocket) &&
      (!IsLower(recipient) ==> reg'.bySocket[socket] == RecipientsOf(reg, socket) + [Lower(recipient)])
  {
    var recipients := RecipientsOf(reg, socket);
    if recipient in recipients {
      var i :| 0 <= i < |recipients| && recipients[i] == recipient;
      assert IsLower(recipients[i]);
    }
  }

  /** A subscription keeps the registry invariant. */
  lemma SubscribeKeepsRegistryOk(reg: Registry, socket: Socket, recipient: string)
    requires RegistryOk(reg)
    ensures RegistryOk(Subscribed(reg, socket, recipient))
  {
    var reg' := Subscribed(reg, socket, recipient);
    var key := Lower(recipient);
    var recipients := RecipientsOf(reg, socket);
    SubscribeRecorded(reg, socket, recipient);
    forall r, s | r in reg'.byRecipient && s in reg'.byRecipient[r]
      ensures s in reg'.bySocket && r in reg'.bySocket[s]
    {
      if r != key || s != socket {
        if s == socket {
          assert r in reg.byRecipient && s in reg.byRecipient[r];
          assert r in recipients;
        }
      }
    }
    forall s | s in reg'.bySocket
      ensures forall i :: 0 <= i < |reg'.bySocket[s]| ==> IsLower(reg'.bySocket[s][i])
    {
      if s == socket {
        forall i | 0 <= i < |reg'.bySocket[s]|
          ensures IsLower(reg'.bySocket[s][i])
        {
          if i < |recipients| {
            assert reg'.bySocket[s][i] == recipients[i];
          }
        }
      }
    }
  }

  /**
   * After a disconnect the socket has no entry, no address in its former
   * list has an entry, and every other entry of both maps is as it was.
   */
  lemma DisconnectEffect(reg: Registry, socket: Socket)
    requires RegistryOk(reg)
    ensures var reg' := Disconnected(reg, socket);
      socket !in reg'.bySocket &&
      (forall r :: r in RecipientsOf(reg, socket) ==> r !in reg'.byRecipient) &&
      (forall r :: r in reg.byRecipient && r !in RecipientsOf(reg, socket) ==>
        r in reg'.byRecipient && reg'.byRecipient[r] == reg.byRecipient[r]) &&
      (forall s :: s in reg.bySocket && s != socket ==> s in reg'.bySocket && reg'.bySocket[s] == reg.bySocket[s]) &&
      reg'.byRecipient.Keys <= reg.byRecipient.Keys && reg'.bySocket.Keys <= reg.bySocket.Keys
  {
  }

  /**
   * Disconnecting one socket also drops every other socket subscribed to
   * the same address from the address map, although their own lists still
   * name the address.
   */
  lemma DisconnectDropsOthers(reg: Registry, socket: Socket, other: Socket, r: string)
    requires RegistryOk(reg) && other != socket
    requires r in reg.byRecipient && socket in reg.byRecipient[r] && other in reg.byRecipient[r]
    ensures var reg' := Disconnected(reg, socket);
      r !in reg'.byRecipient && other in reg'.bySocket && r in reg'.bySocket[other]
  {
    assert r in RecipientsOf(reg, socket);
  }

  /** A disconnect keeps the registry invariant, and afterwards no address lists the socket. */
  lemma DisconnectKeepsRegistryOk(reg: Registry, socket: Socket)
    requires RegistryOk(reg)
    ensures var reg' := Disconnected(reg, socket);
      RegistryOk(reg') && forall r :: r in reg'.byRecipient ==> socket !in reg'.byRecipient[r]
  {
    var reg' := Disconnected(reg, socket);
    forall r, s | r in reg'.byRecipient && s in reg'.byRecipient[r]
      ensures s != socket && s in reg'.bySocket && r in reg'.bySocket[s]
    {
      assert r !in RecipientsOf(reg, socket);
    }
  }

  /** An address with an upper-case letter never has an entry, so messages dumped for it reach no one. */
  lemma MixedCaseReachesNoOne(reg: Registry, recipient: string, messages: seq<Message>)
    requires RegistryOk(reg) && !IsLower(recipient)
    ensures SocketsFor(reg, recipient) == [] && Fanout(SocketsFor(reg, recipient), messages) == []
  {
    FanoutLength([], messages);
  }

  /** The position of message i's send to socket j in a fan-out over `width` sockets. */
  function Slot(width: nat, i: nat, j: nat): nat
  {
    i * width + j
  }

  /**
   * A fan-out sends every message to every socket: message i goes to socket
   * j as send number i * |sockets| + j.
   */
  lemma FanoutShape(sockets: seq<Socket>, messages: seq<Message>)
    ensures forall i: nat, j: nat :: i < |messages| && j < |sockets| ==>
      Slot(|sockets|, i, j) < |Fanout(sockets, messages)| &&
      Fanout(sockets, messages)[Slot(|sockets|, i, j)] == Send(sockets[j], messages[i])
  {
    forall i: nat, j: nat | i < |messages| && j < |sockets|
      ensures Slot(|sockets|, i, j) < |Fanout(sockets, messages)| &&
        Fanout(sockets, messages)[Slot(|sockets|, i, j)] == Send(sockets[j], messages[i])
    {
      FanoutAt(sockets, messages, i, j);
    }
  }

  lemma {:induction false} FanoutLength(sockets: seq<Socket>, messages: seq<Message>)
    ensures |Fanout(sockets, messages)| == |messages| * |sockets|
    decreases |messages|
  {
    if messages != [] {
      var n := |messages| - 1;
      FanoutLength(sockets, messages[..n]);
      assert |messages| * |sockets| == n * |sockets| + |sockets|;
    }
  }

  /** Send number i * |sockets| + j of a fan-out is message i to socket j. */
  lemma {:induction false} FanoutAt(sockets: seq<Socket>, messages: seq<Message>, i: nat, j: nat)
    requires i < |messages| && j < |sockets|
    ensures Slot(|sockets|, i, j) < |Fanout(sockets, messages)| &&
      Fanout(sockets, messages)[Slot(|sockets|, i, j)] == Send(sockets[j], messages[i])
    decreases |messages|
  {
    var k := |sockets|;
    var n := |messages| - 1;
    var init := messages[..n];
    FanoutLength(sockets, messages);
    FanoutLength(sockets, init);
    var f := Fanout(sockets, messages);
    var head := Fanout(sockets, init);
    assert f == head + SendAll(sockets, messages[n]);
    RowBelow(i, j, |messages|, k);
    if i < n {
      RowBelow(i, j, n, k);
      FanoutAt(sockets, init, i, j);
      assert f[i * k + j] == head[i * k + j];
      assert messages[i] == init[i];
    } else {
      assert f[i * k + j] == SendAll(sockets, messages[n])[j];
    }
  }

  /** Row i of a table with k columns ends before row n starts when i < n. */
  lemma {:induction false} RowBelow(i: nat, j: nat, n: nat, k: nat)
    requires i < n && j < k
    ensures i * k + j < n * k
    decreases n
  {
    if n == i + 1 {
      assert n * k == i * k + k;
    } else {
      RowBelow(i, j, n - 1, k);
      assert n * k == (n - 1) * k + k;
    }
  }

  // ---------------------------------------------------------------- the server

  class Server {
    var bySocket: map<Socket, seq<string>>
    var byRecipient: map<string, seq<Socket>>
    /** Every send made so far, oldest first. */
    var outbox: seq<Send>
    const store: Persistence

    function Reg(): Registry
      reads this
    {
      Registry(bySocket, byRecipient)
    }

    ghost predicate Valid()
      reads this, store
    {
      store.Valid() && RegistryOk(Reg())
    }

    /** No subscriptions, nothing sent, an empty store (network and logging set-up are not modelled). */
    constructor ()
      ensures Valid() && fresh(store)
      ensures bySocket == map[] && byRecipient == map[] && outbox == [] && store.db == map[]
    {
      bySocket := map[];
      byRecipient := map[];
      outbox := [];
      store := new Persistence();
    }

    /**
     * _handleSubscription: record the subscription, then dump the unread
     * backlog stored under the address as given to the sockets listed
     * under the address as given.
     */
    method HandleSubscription(socket: Socket, recipient: string, now: nat)
      requires Valid()
      modifies this, store
      ensures Valid()
      ensures Reg() == Subscribed(old(Reg()), socket, recipient)
      ensures store.queues == old(store.queues)
      ensures var walk := Walk(old(store.db), old(store.queues), recipient, false, now, None);
        store.db == walk.0 && outbox == old(outbox) + Fanout(SocketsFor(Reg(), recipient), walk.1)
    {
      SubscribeKeepsRegistryOk(Reg(), socket, recipient);
      RecordSubscription(socket, recipient);
      DumpMessages(recipient, false, now);
    }

    /** The map updates of _handleSubscription. */
    method RecordSubscription(socket: Socket, recipient: string)
      modifies this
      ensures Reg() == Subscribed(old(Reg()), socket, recipient) && outbox == old(outbox)
    {
      var key := Lower(recipient);
      if key !in byRecipient {
        byRecipient := byRecipient[key := []];
      }
      if socket !in bySocket {
        bySocket := bySocket[socket := []];
      }
      var sockets := byRecipient[key];
      var recipients := bySocket[socket];
      if socket !in sockets {
        byRecipient := byRecipient[key := sockets + [socket]];
      }
      if recipient !in recipients {
        bySocket := bySocket[socket := recipients + [key]];
      }
    }

    /**
     * _handleMessage: send the message to every socket listed under its
     * lower-cased address, then persist it (under its address as given)
     * with delivered time `now` if there was such a socket and null if not.
     */
    method HandleMessage(message: Message, id: Id, now: nat)
      requires Valid() && Rec(id) !in store.db
      modifies this, store
      ensures Valid() && Reg() == old(Reg())
      ensures var sockets := SocketsFor(Reg(), Lower(message.to));
        var deliveredTime := if |sockets| > 0 then Some(now) else None;
        outbox == old(outbox) + SendAll(sockets, message) &&
        CanAppend(old(store.db), message.to, id) &&
        store.db == Appended(old(store.db), message, deliveredTime, id, now)
      ensures store.queues == old(store.queues)[message.to := QueueOf(old(store.queues), message.to) + [id]]
    {
      AppendConsistent(store.db, store.queues, message, None, id, now);
      var recipient := Lower(message.to);
      var recipientSockets := if recipient in byRecipient then byRecipient[recipient] else [];
      var deliveredTime := if |recipientSockets| > 0 then Some(now) else None;
      SendToEach(recipientSockets, message);
      store.PersistMessage(message, deliveredTime, id, now);
    }

    /**
     * _dumpMessages: walk the queue stored under `recipient` and send each
     * message, in walk order, to every socket listed under `recipient`
     * (neither lower-cased).
     */
    method DumpMessages(recipient: string, includeReadMessages: bool, now: nat)
      requires store.Valid()
      modifies this, store
      ensures store.Valid() && store.queues == old(store.queues)
      ensures Reg() == old(Reg())
      ensures var walk := Walk(old(store.db), old(store.queues), recipient, includeReadMessages, now, None);
        store.db == walk.0 && outbox == old(outbox) + Fanout(SocketsFor(Reg(), recipient), walk.1)
    {
      var recipientSockets := if recipient in byRecipient then byRecipient[recipient] else [];
      var messages := store.Messages(recipient, includeReadMessages, now, None);
      SendEachToEach(recipientSockets, messages);
    }

    /** The inner `for` loop of _handleMessage and _dumpMessages: `message` to each socket in turn. */
    method SendToEach(sockets: seq<Socket>, message: Message)
      modifies this
      ensures Reg() == old(Reg()) && outbox == old(outbox) + SendAll(sockets, message)
    {
      for i := 0 to |sockets|
        invariant Reg() == old(Reg())
        invariant outbox == old(outbox) + SendAll(sockets[..i], message)
      {
        assert SendAll(sockets[..i + 1], message) == SendAll(sockets[..i], message) + [Send(sockets[i], message)];
        outbox := outbox + [Send(sockets[i], message)];
      }
      assert sockets[..|sockets|] == sockets;
    }

    /** The outer loop of _dumpMessages: each message in turn, to each socket. */
    method SendEachToEach(sockets: seq<Socket>, messages: seq<Message>)
      modifies this
      ensures Reg() == old(Reg()) && outbox == old(outbox) + Fanout(sockets, messages)
    {
      for i := 0 to |messages|
        invariant Reg() == old(Reg())
        invariant outbox == old(outbox) + Fanout(sockets, messages[..i])
      {
        assert messages[..i + 1][..i] == messages[..i];
        SendToEach(sockets, messages[i]);
      }
      assert messages[..|messages|] == messages;
    }

    /**
     * _handleDisconnect: delete the entry of every address in the socket's
     * list, then the socket's own entry if its list was non-empty.
     */
    method HandleDisconnect(socket: Socket)
      requires Valid()
      modifies this
      ensures Valid() && outbox == old(outbox)
      ensures Reg() == Disconnected(old(Reg()), socket)
    {
      DisconnectKeepsRegistryOk(Reg(), socket);
      var recipients := if socket in bySocket then bySocket[socket] else [];
      for i := 0 to |recipients|
        invariant bySocket == old(bySocket) && outbox == old(outbox)
        invariant byRecipient == old(byRecipient) - ElementsOf(recipients[..i])
      {
        assert ElementsOf(recipients[..i + 1]) == ElementsOf(recipients[..i]) + {recipients[i]};
        byRecipient := byRecipient - {recipients[i]};
      }
      assert recipients[..|recipients|] == recipients;
      if |recipients| > 0 {
        bySocket := bySocket - {socket};
      }
      assert Reg() == Disconnected(old(Reg()), socket);
    }
  }
}
