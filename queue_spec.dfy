/**
 * The per-recipient message queue of the relay (src/server/persistence.ts),
 * stated on values: the key-value store, the records it holds, what one
 * append does to the store, and what one walk over a recipient's chain
 * yields and writes. The class in persistence.dfy is proved to do exactly
 * this; the properties the queue promises are proved in queue_props.dfy.
 */
module QueueSpec {
  import opened Optional
  import opened MessageModel

  /** A record id (a fresh uuid in the source). */
  type Id = string

  /** A stored pointer: the id of a record, or the sentinel "empty". */
  datatype Pointer = At(id: Id) | Empty

  /**
   * The store's keys: "{to}|head", "{to}|unreadHead", "{to}|tail" and the
   * bare record id. Distinct constructors keep the four kinds apart.
   */
  datatype Key = Head(to: string) | UnreadHead(to: string) | Tail(to: string) | Rec(id: Id)

  /** IMessageWrapper: one persisted message, linked to the next by `next`. */
  datatype Wrapper = Wrapper(
    id: Id,
    receivedTime: nat,
    deliveredTime: Option<nat>,
    message: Message,
    next: Pointer)

  /** A stored value: a pointer or a record (JSON-encoded in LevelDB). */
  datatype Val = Ptr(p: Pointer) | Record(w: Wrapper)

  type Store = map<Key, Val>

  /** JavaScript falsiness of a `number | null` timestamp: null and 0. */
  predicate Falsy(t: Option<nat>)
  {
    t == None || t == Some(0)
  }

  // ---------------------------------------------------------------- append

  /**
   * _wrapMessage: a fresh record for `message`, received `now`, not yet
   * linked. `deliveredTime || null` keeps a truthy time and turns both an
   * absent time and 0 into null.
   */
  function WrapMessage(message: Message, deliveredTime: Option<nat>, id: Id, now: nat): (w: Wrapper)
    ensures w.id == id && w.receivedTime == now && w.message == message && w.next == Empty
    ensures !Falsy(deliveredTime) ==> w.deliveredTime == deliveredTime
    ensures Falsy(deliveredTime) ==> w.deliveredTime == None
  {
    var delivered := match deliveredTime
      case Some(t) => if t != 0 then Some(t) else None
      case None => None;
    Wrapper(id, now, delivered, message, Empty)
  }

  /**
   * _initializeQueue: a recipient that has no head pointer yet gets
   * head = unreadHead = the new id and tail = "empty"; otherwise nothing.
   */
  function Initialized(db: Store, w: Wrapper): Store
  {
    var to := w.message.to;
    if Head(to) in db then db
    else db[Head(to) := Ptr(At(w.id))][UnreadHead(to) := Ptr(At(w.id))][Tail(to) := Ptr(Empty)]
  }

  /** The reads of _updateLastMessagePointer succeed: a tail pointer, and the record it names. */
  predicate TailLinkable(db: Store, to: string)
  {
    Tail(to) in db && db[Tail(to)].Ptr? &&
    (db[Tail(to)].p.At? ==> Rec(db[Tail(to)].p.id) in db && db[Rec(db[Tail(to)].p.id)].Record?)
  }

  /** _updateLastMessagePointer: the record the tail names now points at the new record. */
  function Linked(db: Store, w: Wrapper): Store
    requires TailLinkable(db, w.message.to)
  {
    var last := db[Tail(w.message.to)].p;
    if last == Empty then db
    else db[Rec(last.id) := Record(db[Rec(last.id)].w.(next := At(w.id)))]
  }

  /** An append can run: the id is fresh, and an initialised queue can be linked to. */
  predicate CanAppend(db: Store, to: string, id: Id)
  {
    Rec(id) !in db && (Head(to) in db ==> TailLinkable(db, to))
  }

  /**
   * persistMessage as one sequential step: initialise the queue if needed,
   * write the record, link the old tail to it, move the tail to it.
   */
  function Appended(db: Store, message: Message, deliveredTime: Option<nat>, id: Id, now: nat): Store
    requires CanAppend(db, message.to, id)
  {
    var w := WrapMessage(message, deliveredTime, id, now);
    var db1 := Initialized(db, w);
    var db2 := db1[Rec(id) := Record(w)];
    var db3 := Linked(db2, w);
    db3[Tail(message.to) := Ptr(At(id))]
  }

  // ---------------------------------------------------------------- walk

  /** Every id names a record stored under its own id. */
  predicate RecordsPresent(db: Store, ids: seq<Id>)
  {
    forall i :: 0 <= i < |ids| ==>
      Rec(ids[i]) in db && db[Rec(ids[i])].Record? && db[Rec(ids[i])].w.id == ids[i]
  }

  /** A walk marks a record delivered `now` only when its delivered time is falsy. */
  function Mark(w: Wrapper, now: nat): (m: Wrapper)
    ensures m.id == w.id && m.message == w.message && m.next == w.next && m.receivedTime == w.receivedTime
    ensures !Falsy(w.deliveredTime) ==> m == w
    ensures Falsy(w.deliveredTime) ==> m.deliveredTime == Some(now)
  {
    if Falsy(w.deliveredTime) then w.(deliveredTime := Some(now)) else w
  }

  /**
   * What the walk writes once record `w` has been yielded and the consumer
   * asks for more: the delivered mark, and in unread mode the advanced
   * unreadHead pointer.
   */
  function Visit(db: Store, to: string, w: Wrapper, includeRead: bool, now: nat): Store
  {
    var marked := if Falsy(w.deliveredTime) then db[Rec(w.id) := Record(Mark(w, now))] else db;
    if includeRead then marked else marked[UnreadHead(to) := Ptr(w.next)]
  }

  /**
   * The walk over the records `ids`: the new store and the messages yielded.
   * `limit` is how many messages the consumer takes before it stops the
   * generator (None: all of them); the last record it takes is yielded but
   * not visited.
   */
  function Drain(db: Store, to: string, ids: seq<Id>, includeRead: bool, now: nat, limit: Option<nat>)
    : (Store, seq<Message>)
    requires RecordsPresent(db, ids)
    decreases |ids|
  {
    if ids == [] || limit == Some(0) then (db, [])
    else
      var w := db[Rec(ids[0])].w;
      if limit == Some(1) then (db, [w.message])
      else
        var rest := Drain(Visit(db, to, w, includeRead, now), to, ids[1..], includeRead, now,
                          Remaining(limit, 1));
        (rest.0, [w.message] + rest.1)
  }

  /** The pointer that follows position j of `ids`: the next id, or "empty" after the last. */
  function Successor(ids: seq<Id>, j: nat): Pointer
    requires j < |ids|
  {
    if j + 1 < |ids| then At(ids[j + 1]) else Empty
  }

  /** `ids` is a stored chain: each record links to the next id, the last to "empty". */
  ghost predicate Chain(db: Store, ids: seq<Id>)
  {
    RecordsPresent(db, ids) &&
    forall j {:trigger Successor(ids, j)} :: 0 <= j < |ids| ==> db[Rec(ids[j])].w.next == Successor(ids, j)
  }

  /** How many more messages a consumer that stops after `limit` still takes once it has `taken`. */
  function Remaining(limit: Option<nat>, taken: nat): Option<nat>
    requires limit.Some? ==> limit.value >= taken
  {
    if limit.Some? then Some(limit.value - taken) else None
  }

  /**
   * One step of a walk whose consumer wants more: the first record is
   * yielded and visited, and the walk goes on along the rest of the chain.
   */
  lemma DrainAdvance(db: Store, to: string, ids: seq<Id>, includeRead: bool, now: nat, limit: Option<nat>, taken: nat)
    requires Chain(db, ids) && ids != []
    requires (limit.Some? ==> limit.value > taken) && limit != Some(taken + 1)
    ensures var db1 := Visit(db, to, db[Rec(ids[0])].w, includeRead, now);
      var d := Drain(db1, to, ids[1..], includeRead, now, Remaining(limit, taken + 1));
      Chain(db1, ids[1..]) &&
      Drain(db, to, ids, includeRead, now, Remaining(limit, taken)) == (d.0, [db[Rec(ids[0])].w.message] + d.1)
  {
    VisitChain(db, to, ids, includeRead, now);
  }

  /**
   * The loop of a walk stays in step with Drain: if `result` is what is
   * left to yield and write before visiting the first record, it still is
   * afterwards, with one more message yielded.
   */
  lemma FollowStep(before: Store, after: Store, to: string, ids: seq<Id>, includeRead: bool, now: nat,
                   limit: Option<nat>, yielded: seq<Message>, result: (Store, seq<Message>))
    requires Chain(before, ids) && ids != []
    requires (limit.Some? ==> limit.value > |yielded| + 1)
    requires after == Visit(before, to, before[Rec(ids[0])].w, includeRead, now)
    requires var d := Drain(before, to, ids, includeRead, now, Remaining(limit, |yielded|));
      result == (d.0, yielded + d.1)
    ensures Chain(after, ids[1..])
    ensures var d := Drain(after, to, ids[1..], includeRead, now, Remaining(limit, |yielded| + 1));
      result == (d.0, (yielded + [before[Rec(ids[0])].w.message]) + d.1)
  {
    DrainAdvance(before, to, ids, includeRead, now, limit, |yielded|);
    var m := before[Rec(ids[0])].w.message;
    var d := Drain(after, to, ids[1..], includeRead, now, Remaining(limit, |yielded| + 1));
    assert Drain(before, to, ids, includeRead, now, Remaining(limit, |yielded|)) == (d.0, [m] + d.1);
    ConcatAssociates(yielded, [m], d.1);
  }

  lemma ConcatAssociates<T>(a: seq<T>, b: seq<T>, c: seq<T>)
    ensures a + (b + c) == (a + b) + c
  {
  }

  /** The first record of a chain links to the second id, or to "empty". */
  lemma ChainHead(db: Store, ids: seq<Id>)
    requires Chain(db, ids) && ids != []
    ensures Rec(ids[0]) in db && db[Rec(ids[0])].Record? && db[Rec(ids[0])].w.id == ids[0]
    ensures db[Rec(ids[0])].w.next == Successor(ids, 0)
  {
    assert db[Rec(ids[0])].w.next == Successor(ids, 0);
  }

  /** Visiting the first record of a chain leaves the rest of it a chain. */
  lemma VisitChain(db: Store, to: string, ids: seq<Id>, includeRead: bool, now: nat)
    requires Chain(db, ids) && ids != []
    ensures Chain(Visit(db, to, db[Rec(ids[0])].w, includeRead, now), ids[1..])
  {
    var db1 := Visit(db, to, db[Rec(ids[0])].w, includeRead, now);
    var rest := ids[1..];
    forall j | 0 <= j < |rest|
      ensures db1[Rec(rest[j])].w.next == Successor(rest, j)
    {
      assert db[Rec(ids[j + 1])].w.next == Successor(ids, j + 1);
    }
  }

  // ---------------------------------------------------------------- invariant

  function QueueOf(queues: map<string, seq<Id>>, to: string): seq<Id>
  {
    if to in queues then queues[to] else []
  }

  /** No element occurs twice in `q`. */
  predicate Distinct<T(==)>(q: seq<T>)
  {
    forall i, j :: 0 <= i < j < |q| ==> q[i] != q[j]
  }

  /** The i-th record of `to`'s chain is stored, addressed to `to`, and links to the (i+1)-th. */
  ghost predicate RecordAt(db: Store, to: string, q: seq<Id>, i: nat)
    requires i < |q|
  {
    Rec(q[i]) in db && db[Rec(q[i])].Record? &&
    db[Rec(q[i])].w.id == q[i] && db[Rec(q[i])].w.message.to == to &&
    db[Rec(q[i])].w.next == (if i + 1 < |q| then At(q[i + 1]) else Empty)
  }

  /**
   * `q` is `to`'s chain: distinct ids in append order, head at the first,
   * tail at the last, unreadHead at one of them or "empty", and following
   * `next` from the head visits q in order and ends at "empty".
   */
  ghost predicate QueueOk(db: Store, to: string, q: seq<Id>)
  {
    |q| > 0 && Distinct(q) &&
    Head(to) in db && db[Head(to)] == Ptr(At(q[0])) &&
    Tail(to) in db && db[Tail(to)] == Ptr(At(q[|q| - 1])) &&
    UnreadHead(to) in db && db[UnreadHead(to)].Ptr? &&
    (db[UnreadHead(to)].p.At? ==> db[UnreadHead(to)].p.id in q) &&
    forall i :: 0 <= i < |q| ==> RecordAt(db, to, q, i)
  }

  /**
   * The store invariant: the recipients with pointer keys are exactly those
   * of `queues`, and each has a well-formed chain.
   */
  ghost predicate Consistent(db: Store, queues: map<string, seq<Id>>)
  {
    (forall to :: Head(to) in db ==> to in queues) &&
    (forall to :: UnreadHead(to) in db ==> to in queues) &&
    (forall to :: Tail(to) in db ==> to in queues) &&
    (forall to :: to in queues ==> QueueOk(db, to, queues[to]))
  }

  /** The position of `x` in `q` (its first occurrence). */
  function IndexOf(q: seq<Id>, x: Id): (i: nat)
    requires x in q
    ensures i < |q| && q[i] == x
    ensures forall j :: 0 <= j < i ==> q[j] != x
  {
    if q[0] == x then 0 else 1 + IndexOf(q[1..], x)
  }

  /** The pointer a walk starts from: head with includeReadMessages, else unreadHead. */
  function StartKey(to: string, includeRead: bool): Key
  {
    if includeRead then Head(to) else UnreadHead(to)
  }

  /** The ids a walk visits: `to`'s chain from the record the start pointer names. */
  function StartIds(db: Store, queues: map<string, seq<Id>>, to: string, includeRead: bool): seq<Id>
  {
    var q := QueueOf(queues, to);
    var key := StartKey(to, includeRead);
    if key in db && db[key].Ptr? && db[key].p.At? && db[key].p.id in q
    then q[IndexOf(q, db[key].p.id)..]
    else []
  }

  /** messages(to, includeRead) on a consistent store, with the consumer stopping after `limit`. */
  function Walk(db: Store, queues: map<string, seq<Id>>, to: string, includeRead: bool, now: nat,
                limit: Option<nat>): (Store, seq<Message>)
    requires Consistent(db, queues)
  {
    StartIdsPresent(db, queues, to, includeRead);
    Drain(db, to, StartIds(db, queues, to, includeRead), includeRead, now, limit)
  }

  // ---------------------------------------------------------------- invariant preservation

  lemma SuffixPresent(db: Store, queues: map<string, seq<Id>>, to: string, k: nat)
    requires Consistent(db, queues) && to in queues && k <= |queues[to]|
    ensures RecordsPresent(db, queues[to][k..])
  {
    var q := queues[to];
    assert QueueOk(db, to, q);
    forall i | 0 <= i < |q[k..]|
      ensures Rec(q[k..][i]) in db && db[Rec(q[k..][i])].Record? && db[Rec(q[k..][i])].w.id == q[k..][i]
    {
      assert RecordAt(db, to, q, k + i);
    }
  }

  lemma StartIdsPresent(db: Store, queues: map<string, seq<Id>>, to: string, includeRead: bool)
    requires Consistent(db, queues)
    ensures RecordsPresent(db, StartIds(db, queues, to, includeRead))
  {
    var q := QueueOf(queues, to);
    var key := StartKey(to, includeRead);
    if key in db && db[key].Ptr? && db[key].p.At? && db[key].p.id in q {
      SuffixPresent(db, queues, to, IndexOf(q, db[key].p.id));
    }
  }

  /** Where a walk starts: the start pointer names the first of StartIds, or "empty", or is missing. */
  lemma StartChain(db: Store, queues: map<string, seq<Id>>, to: string, includeRead: bool)
    requires Consistent(db, queues)
    ensures Chain(db, StartIds(db, queues, to, includeRead))
    ensures var ids := StartIds(db, queues, to, includeRead);
      var key := StartKey(to, includeRead);
      (key in db ==> db[key] == Ptr(if ids == [] then Empty else At(ids[0]))) &&
      (key !in db ==> ids == [])
  {
    var q := QueueOf(queues, to);
    var key := StartKey(to, includeRead);
    var ids := StartIds(db, queues, to, includeRead);
    if to in queues {
      assert QueueOk(db, to, q);
      if key in db && db[key].p.At? {
        var k := IndexOf(q, db[key].p.id);
        assert ids == q[k..];
        forall j | 0 <= j < |ids|
          ensures Rec(ids[j]) in db && db[Rec(ids[j])].Record? && db[Rec(ids[j])].w.id == ids[j]
          ensures db[Rec(ids[j])].w.next == Successor(ids, j)
        {
          assert RecordAt(db, to, q, k + j);
        }
      }
    }
  }

  /** Under the invariant every id of a chain names a record addressed to that chain's recipient. */
  lemma ChainIdsAddressed(db: Store, queues: map<string, seq<Id>>, r: string, i: nat)
    requires Consistent(db, queues) && r in queues && i < |queues[r]|
    ensures Rec(queues[r][i]) in db && db[Rec(queues[r][i])].Record?
    ensures db[Rec(queues[r][i])].w.message.to == r
    ensures db[Rec(queues[r][i])].w.next == (if i + 1 < |queues[r]| then At(queues[r][i + 1]) else Empty)
  {
    assert QueueOk(db, r, queues[r]);
    assert RecordAt(db, r, queues[r], i);
  }

  /** Appending to a recipient that has no queue yet keeps the invariant, with the new chain [id]. */
  lemma AppendFreshConsistent(db: Store, queues: map<string, seq<Id>>, m: Message, d: Option<nat>, id: Id, now: nat)
    requires Consistent(db, queues) && Rec(id) !in db && m.to !in queues
    ensures CanAppend(db, m.to, id)
    ensures Consistent(Appended(db, m, d, id, now), queues[m.to := [id]])
  {
    var to := m.to;
    var w := WrapMessage(m, d, id, now);
    var db' := Appended(db, m, d, id, now);
    var queues' := queues[to := [id]];
    assert db' == db[Head(to) := Ptr(At(id))][UnreadHead(to) := Ptr(At(id))][Rec(id) := Record(w)][Tail(to) := Ptr(At(id))];
    assert RecordAt(db', to, [id], 0);
    assert QueueOk(db', to, [id]);
    forall r | r in queues'
      ensures QueueOk(db', r, queues'[r])
    {
      if r != to {
        var q := queues[r];
        assert QueueOk(db, r, q);
        forall i | 0 <= i < |q|
          ensures RecordAt(db', r, q, i)
        {
          assert RecordAt(db, r, q, i);
        }
      }
    }
  }

  /** Appending to a recipient with chain q keeps the invariant, with chain q + [id]. */
  lemma AppendExistingConsistent(db: Store, queues: map<string, seq<Id>>, m: Message, d: Option<nat>, id: Id, now: nat)
    requires Consistent(db, queues) && Rec(id) !in db && m.to in queues
    ensures CanAppend(db, m.to, id)
    ensures Consistent(Appended(db, m, d, id, now), queues[m.to := queues[m.to] + [id]])
  {
    var to := m.to;
    var q := queues[to];
    assert QueueOk(db, to, q);
    var t := q[|q| - 1];
    assert RecordAt(db, to, q, |q| - 1);
    var wt := db[Rec(t)].w;
    var w := WrapMessage(m, d, id, now);
    var db' := Appended(db, m, d, id, now);
    var q' := q + [id];
    var queues' := queues[to := q'];
    assert db' == db[Rec(id) := Record(w)][Rec(t) := Record(wt.(next := At(id)))][Tail(to) := Ptr(At(id))];
    forall i | 0 <= i < |q|
      ensures q[i] != id
    {
      assert RecordAt(db, to, q, i);
    }
    forall i | 0 <= i < |q'|
      ensures RecordAt(db', to, q', i)
    {
      if i < |q| - 1 {
        assert RecordAt(db, to, q, i);
      }
    }
    assert QueueOk(db', to, q');
    forall r | r in queues'
      ensures QueueOk(db', r, queues'[r])
    {
      if r != to {
        var qr := queues[r];
        assert QueueOk(db, r, qr);
        forall i | 0 <= i < |qr|
          ensures RecordAt(db', r, qr, i)
        {
          assert RecordAt(db, r, qr, i);
        }
      }
    }
  }

  /** Every append keeps the invariant; the recipient's chain grows by the new id. */
  lemma AppendConsistent(db: Store, queues: map<string, seq<Id>>, m: Message, d: Option<nat>, id: Id, now: nat)
    requires Consistent(db, queues) && Rec(id) !in db
    ensures CanAppend(db, m.to, id)
    ensures Consistent(Appended(db, m, d, id, now), queues[m.to := QueueOf(queues, m.to) + [id]])
  {
    if m.to in queues {
      AppendExistingConsistent(db, queues, m, d, id, now);
    } else {
      AppendFreshConsistent(db, queues, m, d, id, now);
    }
  }

  /** Visiting the k-th record of `to`'s chain keeps the invariant. */
  lemma VisitConsistent(db: Store, queues: map<string, seq<Id>>, to: string, k: nat, includeRead: bool, now: nat)
    requires Consistent(db, queues) && to in queues && k < |queues[to]|
    requires Rec(queues[to][k]) in db && db[Rec(queues[to][k])].Record?
    ensures Consistent(Visit(db, to, db[Rec(queues[to][k])].w, includeRead, now), queues)
  {
    var q := queues[to];
    assert QueueOk(db, to, q);
    assert RecordAt(db, to, q, k);
    var w := db[Rec(q[k])].w;
    var db' := Visit(db, to, w, includeRead, now);
    forall r | r in queues
      ensures QueueOk(db', r, queues[r])
    {
      var qr := queues[r];
      assert QueueOk(db, r, qr);
      forall i | 0 <= i < |qr|
        ensures RecordAt(db', r, qr, i)
      {
        assert RecordAt(db, r, qr, i);
      }
    }
  }

  /** A walk over a suffix of `to`'s chain keeps the invariant. */
  lemma {:induction false} DrainConsistent(db: Store, queues: map<string, seq<Id>>, to: string, k: nat,
                                           includeRead: bool, now: nat, limit: Option<nat>)
    requires Consistent(db, queues) && to in queues && k <= |queues[to]|
    ensures RecordsPresent(db, queues[to][k..])
    ensures Consistent(Drain(db, to, queues[to][k..], includeRead, now, limit).0, queues)
    decreases |queues[to]| - k
  {
    var q := queues[to];
    SuffixPresent(db, queues, to, k);
    if k < |q| && limit != Some(0) && limit != Some(1) {
      ChainIdsAddressed(db, queues, to, k);
      var w := db[Rec(q[k])].w;
      VisitConsistent(db, queues, to, k, includeRead, now);
      var db1 := Visit(db, to, w, includeRead, now);
      var limit' := Remaining(limit, 1);
      DrainConsistent(db1, queues, to, k + 1, includeRead, now, limit');
      assert q[k..][1..] == q[k + 1..];
    }
  }

  /** Every walk keeps the invariant. */
  lemma WalkConsistent(db: Store, queues: map<string, seq<Id>>, to: string, includeRead: bool, now: nat,
                       limit: Option<nat>)
    requires Consistent(db, queues)
    ensures Consistent(Walk(db, queues, to, includeRead, now, limit).0, queues)
  {
    var ids := StartIds(db, queues, to, includeRead);
    if ids != [] {
      var q := QueueOf(queues, to);
      var key := StartKey(to, includeRead);
      DrainConsistent(db, queues, to, IndexOf(q, db[key].p.id), includeRead, now, limit);
    }
  }
}
