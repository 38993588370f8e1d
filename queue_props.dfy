/**
 * What the per-recipient queue promises, proved about the value-level
 * model of queue_spec.dfy: what a walk yields and writes, what an append
 * changes, and the behaviour of the read/unread pointers across several
 * operations (including the places where the code does something a user
 * would probably not expect: the unreadHead that stays at "empty", and the
 * replay of messages that were delivered live).
 */
module QueueProps {
  import opened Optional
  import opened MessageModel
  import opened QueueSpec

  // ---------------------------------------------------------------- helpers

  /** The messages held by the records `ids`, in order. */
  function MessagesOf(db: Store, ids: seq<Id>): seq<Message>
    requires RecordsPresent(db, ids)
  {
    seq(|ids|, i requires 0 <= i < |ids| => db[Rec(ids[i])].w.message)
  }

  /** How many messages a consumer that stops after `limit` takes from `n` records. */
  function Taken(limit: Option<nat>, n: nat): nat
  {
    if limit.Some? && limit.value < n then limit.value else n
  }

  /**
   * How many of `n` records a walk fully processes (marks, and in unread
   * mode moves unreadHead past): the last message a stopping consumer takes
   * is yielded but not processed.
   */
  function Processed(limit: Option<nat>, n: nat): nat
  {
    if limit.Some? && limit.value <= n then (if limit.value == 0 then 0 else limit.value - 1) else n
  }

  /** Key `k` is missing from both stores or holds the same value in both. */
  predicate Agree(db: Store, db': Store, k: Key)
  {
    (k in db <==> k in db') && (k in db ==> db[k] == db'[k])
  }

  // ---------------------------------------------------------------- one visit

  /** Visiting a stored record leaves every record in place and every message as it was. */
  lemma VisitKeepsMessages(db: Store, to: string, w: Wrapper, includeRead: bool, now: nat, ids: seq<Id>)
    requires Rec(w.id) in db && db[Rec(w.id)] == Record(w)
    requires RecordsPresent(db, ids)
    ensures RecordsPresent(Visit(db, to, w, includeRead, now), ids)
    ensures MessagesOf(Visit(db, to, w, includeRead, now), ids) == MessagesOf(db, ids)
  {
    var db1 := Visit(db, to, w, includeRead, now);
    forall i | 0 <= i < |ids|
      ensures Rec(ids[i]) in db1 && db1[Rec(ids[i])].Record? && db1[Rec(ids[i])].w.id == ids[i]
      ensures db1[Rec(ids[i])].w.message == db[Rec(ids[i])].w.message
    {
    }
  }

  // ---------------------------------------------------------------- what a walk yields and writes

  /**
   * A walk yields the messages of its records in chain order: all of them,
   * or the first `limit` when the consumer stops early.
   */
  lemma {:induction false} DrainYield(db: Store, to: string, ids: seq<Id>, includeRead: bool, now: nat,
                                      limit: Option<nat>)
    requires RecordsPresent(db, ids)
    ensures Drain(db, to, ids, includeRead, now, limit).1 == MessagesOf(db, ids)[..Taken(limit, |ids|)]
    decreases |ids|
  {
    if ids != [] && limit != Some(0) && limit != Some(1) {
      var w := db[Rec(ids[0])].w;
      var db1 := Visit(db, to, w, includeRead, now);
      var limit' := Remaining(limit, 1);
      VisitKeepsMessages(db, to, w, includeRead, now, ids[1..]);
      DrainYield(db1, to, ids[1..], includeRead, now, limit');
      assert Taken(limit', |ids| - 1) + 1 == Taken(limit, |ids|);
      assert MessagesOf(db, ids)[..Taken(limit, |ids|)]
          == [w.message] + MessagesOf(db, ids[1..])[..Taken(limit', |ids| - 1)];
    }
  }

  /** A walk rewrites no message: the records it passes keep their messages, and so does every other. */
  lemma {:induction false} DrainKeepsMessages(db: Store, to: string, ids: seq<Id>, includeRead: bool, now: nat,
                                              limit: Option<nat>, other: seq<Id>)
    requires RecordsPresent(db, ids) && RecordsPresent(db, other)
    ensures RecordsPresent(Drain(db, to, ids, includeRead, now, limit).0, other)
    ensures MessagesOf(Drain(db, to, ids, includeRead, now, limit).0, other) == MessagesOf(db, other)
    decreases |ids|
  {
    if ids != [] && limit != Some(0) && limit != Some(1) {
      var w := db[Rec(ids[0])].w;
      var db1 := Visit(db, to, w, includeRead, now);
      var limit' := Remaining(limit, 1);
      VisitKeepsMessages(db, to, w, includeRead, now, ids[1..]);
      VisitKeepsMessages(db, to, w, includeRead, now, other);
      DrainKeepsMessages(db1, to, ids[1..], includeRead, now, limit', other);
    }
  }

  /**
   * A walk writes only the records it passes and, in unread mode, the
   * recipient's unreadHead: every other key, and with includeReadMessages
   * the unreadHead too, is left as it was.
   */
  lemma {:induction false} DrainFrame(db: Store, to: string, ids: seq<Id>, includeRead: bool, now: nat,
                                      limit: Option<nat>)
    requires RecordsPresent(db, ids)
    ensures forall k: Key ::
      (k.Rec? && k.id in ids) || (k == UnreadHead(to) && !includeRead) ||
      Agree(db, Drain(db, to, ids, includeRead, now, limit).0, k)
    decreases |ids|
  {
    if ids != [] && limit != Some(0) && limit != Some(1) {
      var w := db[Rec(ids[0])].w;
      var db1 := Visit(db, to, w, includeRead, now);
      var limit' := Remaining(limit, 1);
      VisitKeepsMessages(db, to, w, includeRead, now, ids[1..]);
      DrainFrame(db1, to, ids[1..], includeRead, now, limit');
      var db' := Drain(db, to, ids, includeRead, now, limit).0;
      forall k: Key | !((k.Rec? && k.id in ids) || (k == UnreadHead(to) && !includeRead))
        ensures Agree(db, db', k)
      {
        assert Agree(db, db1, k);
        assert !(k.Rec? && k.id in ids[1..]);
      }
    }
  }

  /**
   * Each record a walk fully processes has its delivered time set to `now`
   * if it was falsy and kept otherwise; the record a stopping consumer
   * takes last, and the ones after it, are not touched.
   */
  lemma {:induction false} DrainMarks(db: Store, to: string, ids: seq<Id>, includeRead: bool, now: nat,
                                      limit: Option<nat>)
    requires RecordsPresent(db, ids) && Distinct(ids)
    ensures var db' := Drain(db, to, ids, includeRead, now, limit).0;
      forall i :: 0 <= i < |ids| ==>
        Rec(ids[i]) in db' &&
        db'[Rec(ids[i])] == Record(if i < Processed(limit, |ids|) then Mark(db[Rec(ids[i])].w, now)
                                   else db[Rec(ids[i])].w)
    decreases |ids|
  {
    if ids != [] && limit != Some(0) && limit != Some(1) {
      var w := db[Rec(ids[0])].w;
      var db1 := Visit(db, to, w, includeRead, now);
      var limit' := Remaining(limit, 1);
      var rest := ids[1..];
      VisitKeepsMessages(db, to, w, includeRead, now, rest);
      assert Distinct(rest);
      DrainMarks(db1, to, rest, includeRead, now, limit');
      DrainFrame(db1, to, rest, includeRead, now, limit');
      var db' := Drain(db, to, ids, includeRead, now, limit).0;
      assert Processed(limit', |rest|) + 1 == Processed(limit, |ids|);
      assert ids[0] !in rest;
      assert Agree(db1, db', Rec(ids[0]));
      forall i | 0 < i < |ids|
        ensures db1[Rec(ids[i])] == db[Rec(ids[i])]
      {
        assert ids[i] != ids[0];
      }
      forall i | 0 <= i < |ids|
        ensures Rec(ids[i]) in db' &&
          db'[Rec(ids[i])] == Record(if i < Processed(limit, |ids|) then Mark(db[Rec(ids[i])].w, now)
                                     else db[Rec(ids[i])].w)
      {
        if i > 0 {
          assert ids[i] == rest[i - 1];
        }
      }
    }
  }

  /**
   * In unread mode, once a walk has processed p > 0 records it leaves
   * unreadHead at the record after the p-th, or at "empty" after the last;
   * in particular a consumer that stops after its k-th message leaves
   * unreadHead at that message, which the next unread walk yields again.
   * A walk that processes nothing leaves unreadHead alone.
   */
  lemma {:induction false} DrainUnreadPointer(db: Store, to: string, ids: seq<Id>, now: nat, limit: Option<nat>)
    requires Chain(db, ids)
    ensures var p := Processed(limit, |ids|);
      var db' := Drain(db, to, ids, false, now, limit).0;
      (p == 0 ==> Agree(db, db', UnreadHead(to))) &&
      (p > 0 ==> UnreadHead(to) in db' && db'[UnreadHead(to)] == Ptr(if p < |ids| then At(ids[p]) else Empty))
    decreases |ids|
  {
    if ids != [] && limit != Some(0) && limit != Some(1) {
      var w := db[Rec(ids[0])].w;
      var db1 := Visit(db, to, w, false, now);
      var limit' := Remaining(limit, 1);
      var rest := ids[1..];
      ChainHead(db, ids);
      VisitChain(db, to, ids, false, now);
      assert UnreadHead(to) in db1 && db1[UnreadHead(to)] == Ptr(if 1 < |ids| then At(ids[1]) else Empty);
      DrainUnreadPointer(db1, to, rest, now, limit');
      var p' := Processed(limit', |rest|);
      assert p' + 1 == Processed(limit, |ids|);
      assert Drain(db, to, ids, false, now, limit).0 == Drain(db1, to, rest, false, now, limit').0;
      if p' > 0 {
        assert (if p' < |rest| then At(rest[p']) else Empty) == (if p' + 1 < |ids| then At(ids[p' + 1]) else Empty);
      }
    }
  }

  // ---------------------------------------------------------------- where a walk starts

  /** A walk from head covers the recipient's whole chain. */
  lemma HeadStartsAtFirst(db: Store, queues: map<string, seq<Id>>, to: string)
    requires Consistent(db, queues)
    ensures StartIds(db, queues, to, true) == QueueOf(queues, to)
  {
    var q := QueueOf(queues, to);
    if to in queues {
      assert QueueOk(db, to, q);
      assert IndexOf(q, q[0]) == 0;
    } else {
      assert Head(to) !in db;
    }
  }

  /** The ids of a chain are the ids of distinct records, and so are those of every walk. */
  lemma StartIdsDistinct(db: Store, queues: map<string, seq<Id>>, to: string, includeRead: bool)
    requires Consistent(db, queues)
    ensures Distinct(StartIds(db, queues, to, includeRead))
  {
    var q := QueueOf(queues, to);
    var ids := StartIds(db, queues, to, includeRead);
    if ids != [] {
      assert QueueOk(db, to, q);
      var k := IndexOf(q, db[StartKey(to, includeRead)].p.id);
      forall i, j | 0 <= i < j < |ids|
        ensures ids[i] != ids[j]
      {
        assert ids[i] == q[k + i] && ids[j] == q[k + j];
      }
    }
  }

  // ---------------------------------------------------------------- walks, composed

  /**
   * messages(to, true) yields the recipient's whole history in append
   * order, never writes head, unreadHead or tail, and a second such walk
   * yields the same history again (whatever the clocks read).
   */
  lemma ReadAllTwice(db: Store, queues: map<string, seq<Id>>, to: string, now1: nat, now2: nat)
    requires Consistent(db, queues)
    ensures RecordsPresent(db, QueueOf(queues, to))
    ensures var first := Walk(db, queues, to, true, now1, None);
      first.1 == MessagesOf(db, QueueOf(queues, to)) &&
      Agree(db, first.0, Head(to)) && Agree(db, first.0, UnreadHead(to)) && Agree(db, first.0, Tail(to)) &&
      Consistent(first.0, queues) &&
      Walk(first.0, queues, to, true, now2, None).1 == first.1
  {
    var q := QueueOf(queues, to);
    HeadStartsAtFirst(db, queues, to);
    StartIdsPresent(db, queues, to, true);
    var first := Walk(db, queues, to, true, now1, None);
    DrainYield(db, to, q, true, now1, None);
    DrainFrame(db, to, q, true, now1, None);
    DrainKeepsMessages(db, to, q, true, now1, None, q);
    WalkConsistent(db, queues, to, true, now1, None);
    HeadStartsAtFirst(first.0, queues, to);
    DrainYield(first.0, to, q, true, now2, None);
  }

  /**
   * messages(to, false) yields the backlog from unreadHead to the end and
   * leaves unreadHead at "empty"; an unread walk right after it yields
   * nothing and writes nothing.
   */
  lemma UnreadTwice(db: Store, queues: map<string, seq<Id>>, to: string, now1: nat, now2: nat, limit: Option<nat>)
    requires Consistent(db, queues) && to in queues
    ensures RecordsPresent(db, StartIds(db, queues, to, false))
    ensures var first := Walk(db, queues, to, false, now1, None);
      first.1 == MessagesOf(db, StartIds(db, queues, to, false)) &&
      UnreadHead(to) in first.0 && first.0[UnreadHead(to)] == Ptr(Empty) &&
      Consistent(first.0, queues) &&
      Walk(first.0, queues, to, false, now2, limit) == (first.0, [])
  {
    var ids := StartIds(db, queues, to, false);
    StartIdsPresent(db, queues, to, false);
    StartChain(db, queues, to, false);
    assert QueueOk(db, to, queues[to]);
    var first := Walk(db, queues, to, false, now1, None);
    DrainYield(db, to, ids, false, now1, None);
    DrainUnreadPointer(db, to, ids, now1, None);
    WalkConsistent(db, queues, to, false, now1, None);
  }

  // ---------------------------------------------------------------- appends

  /**
   * Appending to a recipient that has no head yet: head, unreadHead and
   * tail all name the new record, which ends the chain; the new record is
   * the wrapped message; no other key changes.
   */
  lemma AppendToNewQueue(db: Store, m: Message, d: Option<nat>, id: Id, now: nat)
    requires CanAppend(db, m.to, id) && Head(m.to) !in db
    ensures var db' := Appended(db, m, d, id, now);
      db'[Head(m.to)] == db'[UnreadHead(m.to)] == db'[Tail(m.to)] == Ptr(At(id)) &&
      db'[Rec(id)] == Record(WrapMessage(m, d, id, now)) && db'[Rec(id)].w.next == Empty &&
      forall k :: k in {Head(m.to), UnreadHead(m.to), Tail(m.to), Rec(id)} || Agree(db, db', k)
  {
    var w := WrapMessage(m, d, id, now);
    var db' := Appended(db, m, d, id, now);
    assert db' == db[Head(m.to) := Ptr(At(id))][UnreadHead(m.to) := Ptr(At(id))][Rec(id) := Record(w)]
                    [Tail(m.to) := Ptr(At(id))];
  }

  /**
   * Appending to a recipient that has a head: the record the tail named now
   * links to the new record, the tail names the new record, and nothing
   * else changes (head, unreadHead and every other record included).
   */
  lemma AppendToExistingQueue(db: Store, m: Message, d: Option<nat>, id: Id, now: nat)
    requires CanAppend(db, m.to, id) && Head(m.to) in db
    ensures var db' := Appended(db, m, d, id, now);
      var last := db[Tail(m.to)].p;
      db'[Tail(m.to)] == Ptr(At(id)) &&
      db'[Rec(id)] == Record(WrapMessage(m, d, id, now)) &&
      (last.At? ==> db'[Rec(last.id)] == Record(db[Rec(last.id)].w.(next := At(id)))) &&
      forall k :: k == Tail(m.to) || k == Rec(id) || (last.At? && k == Rec(last.id)) || Agree(db, db', k)
  {
    var w := WrapMessage(m, d, id, now);
    var db' := Appended(db, m, d, id, now);
    var last := db[Tail(m.to)].p;
    if last.At? {
      assert last.id != id;
      assert db' == db[Rec(id) := Record(w)][Rec(last.id) := Record(db[Rec(last.id)].w.(next := At(id)))]
                      [Tail(m.to) := Ptr(At(id))];
    } else {
      assert db' == db[Rec(id) := Record(w)][Tail(m.to) := Ptr(At(id))];
    }
  }

  /** An append rewrites no message: every stored record keeps its message, and the new one is stored. */
  lemma AppendKeepsMessages(db: Store, m: Message, d: Option<nat>, id: Id, now: nat, ids: seq<Id>)
    requires CanAppend(db, m.to, id) && RecordsPresent(db, ids)
    ensures var db' := Appended(db, m, d, id, now);
      RecordsPresent(db', ids + [id]) &&
      MessagesOf(db', ids + [id]) == MessagesOf(db, ids) + [m] &&
      forall x :: Rec(x) in db' <==> Rec(x) in db || x == id
  {
    var db' := Appended(db, m, d, id, now);
    if Head(m.to) in db {
      AppendToExistingQueue(db, m, d, id, now);
    } else {
      AppendToNewQueue(db, m, d, id, now);
    }
    forall i | 0 <= i < |ids|
      ensures ids[i] != id && Rec(ids[i]) in db' && db'[Rec(ids[i])].Record?
      ensures db'[Rec(ids[i])].w.id == ids[i] && db'[Rec(ids[i])].w.message == db[Rec(ids[i])].w.message
    {
      assert Rec(ids[i]) in db;
    }
    forall x | Rec(x) in db' ensures Rec(x) in db || x == id {
      assert !Agree(db, db', Rec(x)) ==> x == id || x == db[Tail(m.to)].p.id;
    }
  }

  /**
   * A message persisted to a recipient extends what a walk from head yields
   * by exactly that message, at the end.
   */
  lemma ReadAllGrows(db: Store, queues: map<string, seq<Id>>, m: Message, d: Option<nat>, id: Id,
                     now: nat, now1: nat, now2: nat)
    requires Consistent(db, queues) && Rec(id) !in db
    ensures CanAppend(db, m.to, id)
    ensures var db' := Appended(db, m, d, id, now);
      var queues' := queues[m.to := QueueOf(queues, m.to) + [id]];
      Consistent(db', queues') &&
      Walk(db', queues', m.to, true, now2, None).1 == Walk(db, queues, m.to, true, now1, None).1 + [m]
  {
    var q := QueueOf(queues, m.to);
    AppendConsistent(db, queues, m, d, id, now);
    var db' := Appended(db, m, d, id, now);
    var queues' := queues[m.to := q + [id]];
    ReadAllTwice(db, queues, m.to, now1, now1);
    ReadAllTwice(db', queues', m.to, now2, now2);
    AppendKeepsMessages(db, m, d, id, now, q);
  }

  /**
   * A message delivered live (a truthy delivered time) to a recipient with
   * no queue yet is still yielded by the next unread walk: the unread walk
   * does not look at delivered times. Its delivered time is kept.
   */
  lemma LiveDeliveredReplayed(db: Store, queues: map<string, seq<Id>>, m: Message, t: nat, id: Id,
                              now: nat, now2: nat)
    requires Consistent(db, queues) && Rec(id) !in db && m.to !in queues && t > 0
    ensures CanAppend(db, m.to, id)
    ensures var db' := Appended(db, m, Some(t), id, now);
      var queues' := queues[m.to := [id]];
      Consistent(db', queues') &&
      var walk := Walk(db', queues', m.to, false, now2, None);
      walk.1 == [m] &&
      Rec(id) in walk.0 && walk.0[Rec(id)] == Record(WrapMessage(m, Some(t), id, now)) &&
      WrapMessage(m, Some(t), id, now).deliveredTime == Some(t)
  {
    AppendFreshConsistent(db, queues, m, Some(t), id, now);
    assert Head(m.to) !in db;
    AppendToNewQueue(db, m, Some(t), id, now);
    var db' := Appended(db, m, Some(t), id, now);
    var queues' := queues[m.to := [id]];
    assert IndexOf([id], id) == 0;
    assert StartIds(db', queues', m.to, false) == [id];
    var w := WrapMessage(m, Some(t), id, now);
    assert Mark(w, now2) == w;
    assert db'[Rec(id)].w == w && [id][1..] == [];
    var db1 := Visit(db', m.to, w, false, now2);
    assert Drain(db1, m.to, [], false, now2, None) == (db1, []);
    assert [m] + [] == [m];
    assert Drain(db', m.to, [id], false, now2, None)
        == (Visit(db', m.to, w, false, now2), [m]);
  }

  /**
   * While unreadHead names a record, an append is seen by the next unread
   * walk: the walk visits the same records plus the new one, and yields the
   * same backlog followed by the new message. This holds whatever the
   * delivered time, so a message delivered live is yielded again.
   */
  lemma UnreadSeesAppend(db: Store, queues: map<string, seq<Id>>, m: Message, d: Option<nat>, id: Id,
                         now: nat, now1: nat, now2: nat)
    requires Consistent(db, queues) && Rec(id) !in db
    requires UnreadHead(m.to) in db && db[UnreadHead(m.to)].Ptr? && db[UnreadHead(m.to)].p.At?
    ensures CanAppend(db, m.to, id)
    ensures var db' := Appended(db, m, d, id, now);
      var queues' := queues[m.to := QueueOf(queues, m.to) + [id]];
      Consistent(db', queues') &&
      StartIds(db', queues', m.to, false) == StartIds(db, queues, m.to, false) + [id] &&
      Walk(db', queues', m.to, false, now2, None).1 == Walk(db, queues, m.to, false, now1, None).1 + [m]
  {
    AppendConsistent(db, queues, m, d, id, now);
    UnreadStartAfterAppend(db, queues, m, d, id, now);
    var db' := Appended(db, m, d, id, now);
    var before := StartIds(db, queues, m.to, false);
    StartIdsPresent(db, queues, m.to, false);
    AppendKeepsMessages(db, m, d, id, now, before);
    UnreadWalkGrows(db, queues, db', queues[m.to := QueueOf(queues, m.to) + [id]], m.to, id, m, now1, now2);
  }

  /**
   * If an unread walk over a second store visits the records of one over a
   * first store plus `id`, holding the same messages and then `m`, it
   * yields the first walk's messages followed by `m`.
   */
  lemma UnreadWalkGrows(db: Store, queues: map<string, seq<Id>>, db2: Store, queues2: map<string, seq<Id>>,
                        to: string, id: Id, m: Message, now1: nat, now2: nat)
    requires Consistent(db, queues) && Consistent(db2, queues2)
    requires StartIds(db2, queues2, to, false) == StartIds(db, queues, to, false) + [id]
    requires RecordsPresent(db, StartIds(db, queues, to, false))
    requires RecordsPresent(db2, StartIds(db, queues, to, false) + [id])
    requires MessagesOf(db2, StartIds(db, queues, to, false) + [id]) == MessagesOf(db, StartIds(db, queues, to, false)) + [m]
    ensures Walk(db2, queues2, to, false, now2, None).1 == Walk(db, queues, to, false, now1, None).1 + [m]
  {
    var before := StartIds(db, queues, to, false);
    assert Walk(db, queues, to, false, now1, None) == Drain(db, to, before, false, now1, None);
    assert Walk(db2, queues2, to, false, now2, None) == Drain(db2, to, before + [id], false, now2, None);
    DrainGrows(db, db2, to, before, id, m, now1, now2);
  }

  /** A complete walk over records holding the same messages and then `m` yields the same messages and then `m`. */
  lemma DrainGrows(db: Store, db2: Store, to: string, ids: seq<Id>, id: Id, m: Message, now1: nat, now2: nat)
    requires RecordsPresent(db, ids) && RecordsPresent(db2, ids + [id])
    requires MessagesOf(db2, ids + [id]) == MessagesOf(db, ids) + [m]
    ensures Drain(db2, to, ids + [id], false, now2, None).1 == Drain(db, to, ids, false, now1, None).1 + [m]
  {
    DrainYield(db, to, ids, false, now1, None);
    DrainYield(db2, to, ids + [id], false, now2, None);
    assert MessagesOf(db, ids)[..|ids|] == MessagesOf(db, ids);
    assert MessagesOf(db2, ids + [id])[..|ids + [id]|] == MessagesOf(db2, ids + [id]);
  }

  /** While unreadHead names a record, an append adds the new id to the end of what an unread walk visits. */
  lemma UnreadStartAfterAppend(db: Store, queues: map<string, seq<Id>>, m: Message, d: Option<nat>, id: Id, now: nat)
    requires Consistent(db, queues) && Rec(id) !in db
    requires UnreadHead(m.to) in db && db[UnreadHead(m.to)].Ptr? && db[UnreadHead(m.to)].p.At?
    ensures CanAppend(db, m.to, id)
    ensures StartIds(Appended(db, m, d, id, now), queues[m.to := QueueOf(queues, m.to) + [id]], m.to, false)
      == StartIds(db, queues, m.to, false) + [id]
  {
    var q := QueueOf(queues, m.to);
    assert QueueOk(db, m.to, q);
    AppendConsistent(db, queues, m, d, id, now);
    AppendToExistingQueue(db, m, d, id, now);
    var db' := Appended(db, m, d, id, now);
    var queues' := queues[m.to := q + [id]];
    assert Agree(db, db', UnreadHead(m.to));
    var x := db[UnreadHead(m.to)].p.id;
    IndexOfAppend(q, x, id);
    var k := IndexOf(q, x);
    assert StartIds(db, queues, m.to, false) == q[k..];
    assert StartIds(db', queues', m.to, false) == (q + [id])[k..];
    assert (q + [id])[k..] == q[k..] + [id];
  }

  /** Appending after a list does not move the first occurrence of an element already in it. */
  lemma {:induction false} IndexOfAppend(q: seq<Id>, x: Id, y: Id)
    requires x in q
    ensures x in q + [y] && IndexOf(q + [y], x) == IndexOf(q, x)
  {
    if q[0] != x {
      assert (q + [y])[1..] == q[1..] + [y];
      IndexOfAppend(q[1..], x, y);
    }
  }

  /**
   * Once an unread walk has left unreadHead at "empty", a later append to
   * the same recipient leaves it there (the head already exists), so the
   * next unread walk yields nothing, not even the new message.
   */
  lemma StuckUnreadHead(db: Store, queues: map<string, seq<Id>>, m: Message, d: Option<nat>, id: Id,
                        now: nat, now2: nat, limit: Option<nat>)
    requires Consistent(db, queues) && Rec(id) !in db
    requires UnreadHead(m.to) in db && db[UnreadHead(m.to)] == Ptr(Empty)
    ensures CanAppend(db, m.to, id)
    ensures var db' := Appended(db, m, d, id, now);
      var queues' := queues[m.to := QueueOf(queues, m.to) + [id]];
      Consistent(db', queues') &&
      db'[UnreadHead(m.to)] == Ptr(Empty) &&
      Walk(db', queues', m.to, false, now2, limit) == (db', [])
  {
    AppendConsistent(db, queues, m, d, id, now);
    assert m.to in queues;
    assert QueueOk(db, m.to, queues[m.to]);
    AppendToExistingQueue(db, m, d, id, now);
  }

  // ---------------------------------------------------------------- many appends

  /** One call of persistMessage: the message, its delivered time, the fresh id and the clock reading. */
  datatype Arrival = Arrival(message: Message, deliveredTime: Option<nat>, id: Id, receivedAt: nat)

  function IdsOf(arrivals: seq<Arrival>): seq<Id>
  {
    seq(|arrivals|, i requires 0 <= i < |arrivals| => arrivals[i].id)
  }

  function PayloadsOf(arrivals: seq<Arrival>): seq<Message>
  {
    seq(|arrivals|, i requires 0 <= i < |arrivals| => arrivals[i].message)
  }

  /** Splitting off the first arrival, appended after what a chain already holds. */
  lemma ArrivalsSplit(ids: seq<Id>, ms: seq<Message>, arrivals: seq<Arrival>)
    requires arrivals != []
    ensures (ids + [arrivals[0].id]) + IdsOf(arrivals[1..]) == ids + IdsOf(arrivals)
    ensures (ms + [arrivals[0].message]) + PayloadsOf(arrivals[1..]) == ms + PayloadsOf(arrivals)
  {
    assert IdsOf(arrivals) == [arrivals[0].id] + IdsOf(arrivals[1..]);
    assert PayloadsOf(arrivals) == [arrivals[0].message] + PayloadsOf(arrivals[1..]);
  }

  /** The ids of `arrivals` are new to `db` and pairwise distinct. */
  predicate FreshIds(db: Store, arrivals: seq<Arrival>)
  {
    (forall i :: 0 <= i < |arrivals| ==> Rec(arrivals[i].id) !in db) && Distinct(IdsOf(arrivals))
  }

  /** After the first of `arrivals` is persisted, the ids of the others are still fresh. */
  lemma FreshAfterAppend(db: Store, arrivals: seq<Arrival>)
    requires FreshIds(db, arrivals) && arrivals != []
    requires CanAppend(db, arrivals[0].message.to, arrivals[0].id)
    ensures var a := arrivals[0];
      FreshIds(Appended(db, a.message, a.deliveredTime, a.id, a.receivedAt), arrivals[1..])
  {
    var a := arrivals[0];
    var ids := IdsOf(arrivals);
    AppendKeepsMessages(db, a.message, a.deliveredTime, a.id, a.receivedAt, []);
    var rest := arrivals[1..];
    forall i | 0 <= i < |rest|
      ensures Rec(rest[i].id) !in Appended(db, a.message, a.deliveredTime, a.id, a.receivedAt)
    {
      assert rest[i].id == ids[i + 1] && a.id == ids[0];
    }
    assert IdsOf(rest) == ids[1..];
  }

  /** `arrivals` persisted one after the other, each as one sequential step. */
  ghost function AppendAll(db: Store, queues: map<string, seq<Id>>, arrivals: seq<Arrival>)
    : (r: (Store, map<string, seq<Id>>))
    requires Consistent(db, queues) && FreshIds(db, arrivals)
    ensures Consistent(r.0, r.1)
    decreases |arrivals|
  {
    if arrivals == [] then (db, queues)
    else
      var a := arrivals[0];
      AppendConsistent(db, queues, a.message, a.deliveredTime, a.id, a.receivedAt);
      FreshAfterAppend(db, arrivals);
      var db1 := Appended(db, a.message, a.deliveredTime, a.id, a.receivedAt);
      AppendAll(db1, queues[a.message.to := QueueOf(queues, a.message.to) + [a.id]], arrivals[1..])
  }

  /** Under the invariant every record of a recipient's chain is stored. */
  lemma QueuePresent(db: Store, queues: map<string, seq<Id>>, to: string)
    requires Consistent(db, queues)
    ensures RecordsPresent(db, QueueOf(queues, to))
  {
    if to in queues {
      SuffixPresent(db, queues, to, 0);
      assert queues[to][0..] == queues[to];
    }
  }

  /**
   * Persisting messages addressed to one recipient appends their ids to
   * its chain, in order, and their messages to what the chain holds.
   */
  lemma {:induction false} AppendAllQueue(db: Store, queues: map<string, seq<Id>>, to: string,
                                          arrivals: seq<Arrival>)
    requires Consistent(db, queues) && FreshIds(db, arrivals)
    requires forall i :: 0 <= i < |arrivals| ==> arrivals[i].message.to == to
    ensures RecordsPresent(db, QueueOf(queues, to))
    ensures var r := AppendAll(db, queues, arrivals);
      QueueOf(r.1, to) == QueueOf(queues, to) + IdsOf(arrivals) &&
      RecordsPresent(r.0, QueueOf(r.1, to)) &&
      MessagesOf(r.0, QueueOf(r.1, to)) == MessagesOf(db, QueueOf(queues, to)) + PayloadsOf(arrivals)
    decreases |arrivals|
  {
    QueuePresent(db, queues, to);
    var q := QueueOf(queues, to);
    var r := AppendAll(db, queues, arrivals);
    QueuePresent(r.0, r.1, to);
    if arrivals == [] {
      assert q + IdsOf(arrivals) == q;
      assert MessagesOf(db, q) + PayloadsOf(arrivals) == MessagesOf(db, q);
    } else {
      var a := arrivals[0];
      AppendConsistent(db, queues, a.message, a.deliveredTime, a.id, a.receivedAt);
      AppendKeepsMessages(db, a.message, a.deliveredTime, a.id, a.receivedAt, q);
      var db1 := Appended(db, a.message, a.deliveredTime, a.id, a.receivedAt);
      var queues1 := queues[to := q + [a.id]];
      FreshAfterAppend(db, arrivals);
      assert r == AppendAll(db1, queues1, arrivals[1..]);
      AppendAllQueue(db1, queues1, to, arrivals[1..]);
      assert QueueOf(queues1, to) == q + [a.id];
      ArrivalsSplit(q, MessagesOf(db, q), arrivals);
    }
  }

  /**
   * After N appends to a recipient that had no queue, a walk from head
   * yields exactly the N messages in append order; head names the first
   * record, tail the last, and the records form a chain: each links to the
   * next, and only the last links to "empty".
   */
  lemma AppendAllThenReadAll(db: Store, queues: map<string, seq<Id>>, to: string, arrivals: seq<Arrival>,
                             now: nat)
    requires Consistent(db, queues) && to !in queues && FreshIds(db, arrivals)
    requires forall i :: 0 <= i < |arrivals| ==> arrivals[i].message.to == to
    ensures var r := AppendAll(db, queues, arrivals);
      var ids := QueueOf(r.1, to);
      ids == IdsOf(arrivals) &&
      Walk(r.0, r.1, to, true, now, None).1 == PayloadsOf(arrivals) &&
      Chain(r.0, ids) &&
      (ids != [] ==> Head(to) in r.0 && r.0[Head(to)] == Ptr(At(ids[0])) &&
                     Tail(to) in r.0 && r.0[Tail(to)] == Ptr(At(ids[|ids| - 1])))
  {
    var r := AppendAll(db, queues, arrivals);
    var ids := IdsOf(arrivals);
    AppendAllQueue(db, queues, to, arrivals);
    assert [] + ids == ids;
    assert MessagesOf(db, []) + PayloadsOf(arrivals) == PayloadsOf(arrivals);
    ReadAllYield(r.0, r.1, to, now);
    QueueShape(r.0, r.1, to);
  }

  /** A walk from head to the end yields every message of the recipient's chain. */
  lemma ReadAllYield(db: Store, queues: map<string, seq<Id>>, to: string, now: nat)
    requires Consistent(db, queues)
    ensures RecordsPresent(db, QueueOf(queues, to))
    ensures Walk(db, queues, to, true, now, None).1 == MessagesOf(db, QueueOf(queues, to))
  {
    HeadStartsAtFirst(db, queues, to);
    StartIdsPresent(db, queues, to, true);
    DrainYield(db, to, QueueOf(queues, to), true, now, None);
  }

  /** Under the invariant a recipient's chain is stored as a chain running from head to tail. */
  lemma QueueShape(db: Store, queues: map<string, seq<Id>>, to: string)
    requires Consistent(db, queues)
    ensures var ids := QueueOf(queues, to);
      Chain(db, ids) &&
      (ids != [] ==> Head(to) in db && db[Head(to)] == Ptr(At(ids[0])) &&
                     Tail(to) in db && db[Tail(to)] == Ptr(At(ids[|ids| - 1])))
  {
    HeadStartsAtFirst(db, queues, to);
    StartChain(db, queues, to, true);
    if to in queues {
      assert QueueOk(db, to, queues[to]);
    }
  }
}
