/**
 * The Persistence class of src/server/persistence.ts: a key-value store
 * holding, per recipient, a singly linked list of message records and the
 * head, unreadHead and tail pointers into it. The LevelDB store is the map
 * `db`; the ghost map `queues` names each recipient's chain in append order.
 */
module QueueStore {
  import opened Optional
  import opened MessageModel
  import opened QueueSpec

  class Persistence {
    var db: Store
    ghost var queues: map<string, seq<Id>>

    ghost predicate Valid()
      reads this
    {
      Consistent(db, queues)
    }

    /** An empty store (the directory and LevelDB set-up are not modelled). */
    constructor ()
      ensures Valid() && db == map[] && queues == map[]
    {
      db := map[];
      queues := map[];
    }

    /**
     * persistMessage: append `message` to its recipient's queue under the
     * fresh id `id`, received at `now`.
     */
    method PersistMessage(message: Message, deliveredTime: Option<nat>, id: Id, now: nat)
      requires Valid() && Rec(id) !in db
      requires CanAppend(db, message.to, id)
      modifies this
      ensures Valid()
      ensures queues == old(queues)[message.to := QueueOf(old(queues), message.to) + [id]]
      ensures db == Appended(old(db), message, deliveredTime, id, now)
    {
      AppendConsistent(db, queues, message, deliveredTime, id, now);
      var wrappedMessage := WrapMessage(message, deliveredTime, id, now);
      var recipient := wrappedMessage.message.to;
      InitializeQueue(wrappedMessage);
      db := db[Rec(wrappedMessage.id) := Record(wrappedMessage)];
      UpdateLastMessagePointer(wrappedMessage);
      db := db[Tail(recipient) := Ptr(At(wrappedMessage.id))];
      queues := queues[recipient := QueueOf(queues, recipient) + [id]];
    }

    /** _initializeQueue: head, unreadHead and tail for a recipient that has no head yet. */
    method InitializeQueue(wrappedMessage: Wrapper)
      modifies this
      ensures db == Initialized(old(db), wrappedMessage) && queues == old(queues)
    {
      var recipient := wrappedMessage.message.to;
      if Head(recipient) !in db {
        db := db[Head(recipient) := Ptr(At(wrappedMessage.id))];
        db := db[UnreadHead(recipient) := Ptr(At(wrappedMessage.id))];
        db := db[Tail(recipient) := Ptr(Empty)];
      }
    }

    /** _updateLastMessagePointer: link the record the tail names to `message`. */
    method UpdateLastMessagePointer(message: Wrapper)
      requires TailLinkable(db, message.message.to)
      modifies this
      ensures db == Linked(old(db), message) && queues == old(queues)
    {
      var lastMessageId := db[Tail(message.message.to)].p;
      if lastMessageId != Empty {
        var lastMessage := db[Rec(lastMessageId.id)].w;
        lastMessage := lastMessage.(next := At(message.id));
        db := db[Rec(lastMessageId.id) := Record(lastMessage)];
      }
    }

    /**
     * messages(recipient, includeReadMessages): the generator, run until the
     * chain ends or until its consumer has taken `limit` messages and stops
     * it. A missing start pointer yields nothing and writes nothing.
     */
    method Messages(recipient: string, includeReadMessages: bool, now: nat, limit: Option<nat>)
      returns (yielded: seq<Message>)
      requires Valid()
      modifies this
      ensures Valid() && queues == old(queues)
      ensures (db, yielded) == Walk(old(db), queues, recipient, includeReadMessages, now, limit)
      ensures StartKey(recipient, includeReadMessages) !in old(db) ==> yielded == [] && db == old(db)
    {
      WalkConsistent(db, queues, recipient, includeReadMessages, now, limit);
      StartChain(db, queues, recipient, includeReadMessages);
      if limit == Some(0) {
        return [];
      }
      var unreadHead := Empty;
      var headKey := if includeReadMessages then Head(recipient) else UnreadHead(recipient);
      if headKey in db {
        unreadHead := db[headKey].p;
      }
      yielded := FollowChain(recipient, includeReadMessages, now, limit, unreadHead,
                             StartIds(db, queues, recipient, includeReadMessages));
    }

    /**
     * The loop of messages: from `unreadHead`, yield each record's message,
     * then mark it delivered if its time is falsy and, in unread mode, move
     * the stored unreadHead past it; stop at "empty" or when the consumer
     * has taken `limit` messages.
     */
    method FollowChain(recipient: string, includeReadMessages: bool, now: nat, limit: Option<nat>,
                       unreadHead: Pointer, ghost ids: seq<Id>)
      returns (yielded: seq<Message>)
      requires Chain(db, ids) && unreadHead == (if ids == [] then Empty else At(ids[0]))
      requires limit != Some(0)
      modifies this
      ensures queues == old(queues)
      ensures (db, yielded) == Drain(old(db), recipient, ids, includeReadMessages, now, limit)
    {
      yielded := [];
      ghost var result := Drain(db, recipient, ids, includeReadMessages, now, limit);
      var cursor := unreadHead;
      ghost var rest := ids;
      assert Remaining(limit, 0) == limit && [] + result.1 == result.1;
      while cursor != Empty
        invariant queues == old(queues)
        invariant limit.Some? ==> limit.value > |yielded|
        invariant cursor == if rest == [] then Empty else At(rest[0])
        invariant Chain(db, rest)
        invariant var d := Drain(db, recipient, rest, includeReadMessages, now, Remaining(limit, |yielded|));
          result == (d.0, yielded + d.1)
        decreases |rest|
      {
        ChainHead(db, rest);
        var wrappedMessage := db[Rec(cursor.id)].w;
        if limit == Some(|yielded| + 1) {
          yielded := yielded + [wrappedMessage.message];
          return;
        }
        ghost var before, taken := db, yielded;
        yielded := yielded + [wrappedMessage.message];
        cursor := MarkAndAdvance(recipient, wrappedMessage, includeReadMessages, now);
        FollowStep(before, db, recipient, rest, includeReadMessages, now, limit, taken, result);
        rest := rest[1..];
      }
      assert yielded + [] == yielded;
    }
  
    /**
     * The writes of the loop of messages after a record has been yielded:
     * mark it delivered `now` if its time is falsy, and in unread mode move
     * the stored unreadHead to the record it links to; return that link.
     */
    method MarkAndAdvance(recipient: string, wrappedMessage: Wrapper, includeReadMessages: bool, now: nat)
      returns (unreadHead: Pointer)
      modifies this
      ensures queues == old(queues) && unreadHead == wrappedMessage.next
      ensures db == Visit(old(db), recipient, wrappedMessage, includeReadMessages, now)
    {
      var message := wrappedMessage;
      if Falsy(message.deliveredTime) {
        message := message.(deliveredTime := Some(now));
        db := db[Rec(message.id) := Record(message)];
      }
      unreadHead := message.next;
      if !includeReadMessages {
        db := db[UnreadHead(recipient) := Ptr(unreadHead)];
      }
    }
  }
}
