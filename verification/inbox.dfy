/** The MongoDB `messages` collection of serveur.js as a map from document id
    to record, with the queries the route handlers run against it: the
    newest-first listing and the counts behind the summary statistics. */
module Inbox {
  import opened Wrappers

  /** A document id. MongoDB ObjectIds are totally ordered, so ids are
      modelled as naturals. */
  type Id = nat

  /** One stored document. `lu` is `None` when the field is missing (the
      seed script writes `isRead` instead) or `null`; the server itself
      always writes a boolean. `createdAt` is the timestamp as an integer. */
  datatype Message = Message(
    nom: string,
    email: string,
    sujet: string,
    message: string,
    lu: Option<bool>,
    createdAt: int)

  type Store = map<Id, Message>

  /** A document as returned by `find()`: its id and its fields. */
  datatype Entry = Entry(id: Id, msg: Message)

  /** JavaScript truthiness of the stored `lu` (missing and null are falsy). */
  predicate IsRead(m: Message) {
    m.lu == Some(true)
  }

  /** Every document carries a boolean `lu`. */
  ghost predicate AllLuBoolean(store: Store) {
    forall id :: id in store ==> store[id].lu.Some?
  }

  /** The smallest key of a non-empty key set. */
  function MinKey(ks: set<Id>): (k: Id)
    requires ks != {}
    ensures k in ks && forall j :: j in ks ==> k <= j
  {
    MinKeyExists(ks);
    var k :| k in ks && forall j :: j in ks ==> k <= j;
    k
  }

  lemma MinKeyExists(ks: set<Id>)
    requires ks != {}
    ensures exists k :: k in ks && forall j :: j in ks ==> k <= j
  {
    var k := MinKeyWitness(ks);
    assert k in ks && forall j :: j in ks ==> k <= j;
  }

  lemma {:induction false} MinKeyWitness(ks: set<Id>) returns (k: Id)
    requires ks != {}
    ensures k in ks && forall j :: j in ks ==> k <= j
    decreases |ks|
  {
    var x :| x in ks;
    if ks == {x} {
      k := x;
    } else {
      var rest := ks - {x};
      var m := MinKeyWitness(rest);
      k := if x < m then x else m;
      forall j | j in ks
        ensures k <= j
      {
        if j != x {
          assert j in rest;
        }
      }
    }
  }

  /** The documents of the collection, each exactly once, in ascending id
      order. MongoDB's own scan order is storage order; ascending ids are
      this model's choice, and only decide how records with equal
      `createdAt` are listed. */
  function Entries(store: Store): (r: seq<Entry>)
    ensures ListsInOrder(store, r)
    decreases |store|
  {
    if |store| == 0 then
      EmptyStore(store);
      []
    else
      EmptyStore(store);
      var k := MinKey(store.Keys);
      var rest := RemoveKey(store, k);
      var tail := Entries(rest);
      EntriesCons(store, k, rest, tail);
      [Entry(k, store[k])] + tail
  }

  /** `r` lists every record of `store` once, in ascending id order. */
  ghost predicate ListsInOrder(store: Store, r: seq<Entry>) {
    && |r| == |store|
    && (forall i :: 0 <= i < |r| ==> r[i].id in store && store[r[i].id] == r[i].msg)
    && (forall id :: id in store ==> Entry(id, store[id]) in r)
    && (forall i, j :: 0 <= i < j < |r| ==> r[i].id < r[j].id)
  }

  lemma EmptyStore(store: Store)
    ensures |store| == 0 <==> store.Keys == {}
    ensures |store| == 0 ==> forall id :: id !in store
  {
    assert |store| == |store.Keys|;
  }

  /** The store without one of its keys, one element smaller. */
  function RemoveKey(store: Store, k: Id): (rest: Store)
    requires k in store
    ensures |rest| == |store| - 1
    ensures rest.Keys == store.Keys - {k}
    ensures forall id :: id in rest ==> rest[id] == store[id]
  {
    assert (store - {k}).Keys == store.Keys - {k};
    store - {k}
  }

  /** Putting the entry of the smallest key in front of the entries of the
      rest of the store lists the whole store in ascending id order. */
  lemma EntriesCons(store: Store, k: Id, rest: Store, tail: seq<Entry>)
    requires k in store && forall j :: j in store ==> k <= j
    requires rest.Keys == store.Keys - {k} && forall id :: id in rest ==> rest[id] == store[id]
    requires ListsInOrder(rest, tail)
    ensures ListsInOrder(store, [Entry(k, store[k])] + tail)
  {
    var r := [Entry(k, store[k])] + tail;
    assert |rest| == |store| - 1 by {
      assert |rest| == |rest.Keys| && |store| == |store.Keys|;
    }
    ConsMembers(store, k, rest, tail);
    ConsOrdered(store, k, rest, tail);
  }

  lemma ConsMembers(store: Store, k: Id, rest: Store, tail: seq<Entry>)
    requires k in store
    requires rest.Keys == store.Keys - {k} && forall id :: id in rest ==> rest[id] == store[id]
    requires forall i :: 0 <= i < |tail| ==> tail[i].id in rest && rest[tail[i].id] == tail[i].msg
    requires forall id :: id in rest ==> Entry(id, rest[id]) in tail
    ensures var r := [Entry(k, store[k])] + tail;
      && (forall i :: 0 <= i < |r| ==> r[i].id in store && store[r[i].id] == r[i].msg)
      && (forall id :: id in store ==> Entry(id, store[id]) in r)
  {
    var r := [Entry(k, store[k])] + tail;
    forall i | 0 <= i < |r|
      ensures r[i].id in store && store[r[i].id] == r[i].msg
    {
      if i > 0 {
        assert r[i] == tail[i - 1];
      }
    }
    forall id | id in store
      ensures Entry(id, store[id]) in r
    {
      if id != k {
        assert id in rest;
      }
    }
  }

  lemma ConsOrdered(store: Store, k: Id, rest: Store, tail: seq<Entry>)
    requires k in store && forall j :: j in store ==> k <= j
    requires rest.Keys == store.Keys - {k}
    requires forall i :: 0 <= i < |tail| ==> tail[i].id in rest
    requires forall i, j :: 0 <= i < j < |tail| ==> tail[i].id < tail[j].id
    ensures var r := [Entry(k, store[k])] + tail;
      forall i, j :: 0 <= i < j < |r| ==> r[i].id < r[j].id
  {
    var r := [Entry(k, store[k])] + tail;
    forall i, j | 0 <= i < j < |r|
      ensures r[i].id < r[j].id
    {
      assert r[j] == tail[j - 1];
      if i == 0 {
        assert r[j].id in rest;
      } else {
        assert r[i] == tail[i - 1];
      }
    }
  }

  /** Ordered by `createdAt` descending (`sort({ createdAt: -1 })`). */
  ghost predicate NewestFirst(s: seq<Entry>) {
    forall i, j :: 0 <= i < j < |s| ==> s[i].msg.createdAt >= s[j].msg.createdAt
  }

  function InsertByDate(e: Entry, s: seq<Entry>): (r: seq<Entry>)
    requires NewestFirst(s)
    ensures NewestFirst(r)
    ensures multiset(r) == multiset(s) + multiset{e}
    ensures |r| == |s| + 1
    ensures r[0] == e || (s != [] && r[0] == s[0])
    decreases |s|
  {
    if s == [] || e.msg.createdAt >= s[0].msg.createdAt then [e] + s
    else
      var t := InsertByDate(e, s[1..]);
      InsertBehindHead(e, s, t);
      [s[0]] + t
  }

  /** An entry older than the head goes behind it. */
  lemma InsertBehindHead(e: Entry, s: seq<Entry>, t: seq<Entry>)
    requires NewestFirst(s) && s != [] && e.msg.createdAt < s[0].msg.createdAt
    requires NewestFirst(t) && multiset(t) == multiset(s[1..]) + multiset{e} && |t| == |s|
    requires t[0] == e || (s[1..] != [] && t[0] == s[1..][0])
    ensures NewestFirst([s[0]] + t)
    ensures multiset([s[0]] + t) == multiset(s) + multiset{e}
  {
    assert s == [s[0]] + s[1..];
    var r := [s[0]] + t;
    assert s[0].msg.createdAt >= t[0].msg.createdAt;
    forall i, j | 0 <= i < j < |r|
      ensures r[i].msg.createdAt >= r[j].msg.createdAt
    {
      if i == 0 {
        assert r[j] == t[j - 1];
        assert t[0].msg.createdAt >= t[j - 1].msg.createdAt;
      } else {
        assert r[i] == t[i - 1] && r[j] == t[j - 1];
      }
    }
  }

  /** Insertion sort, newest first. */
  function SortNewestFirst(s: seq<Entry>): (r: seq<Entry>)
    ensures NewestFirst(r)
    ensures multiset(r) == multiset(s)
    decreases |s|
  {
    if s == [] then []
    else
      assert s == [s[0]] + s[1..];
      InsertByDate(s[0], SortNewestFirst(s[1..]))
  }

  /** `Message.find().sort({ createdAt: -1 })`. */
  function ListNewestFirst(store: Store): (r: seq<Entry>)
    ensures NewestFirst(r)
    ensures |r| == |store|
    ensures forall e :: e in r <==> e.id in store && store[e.id] == e.msg
  {
    var all := Entries(store);
    var r := SortNewestFirst(all);
    assert forall e :: e in r <==> e in all by {
      forall e ensures e in r <==> e in all {
        assert e in r <==> e in multiset(r);
        assert e in all <==> e in multiset(all);
      }
    }
    assert |r| == |multiset(r)| == |multiset(all)| == |all|;
    r
  }

  /** Ids matched by `countDocuments({ lu: true })`. */
  function ReadIds(store: Store): set<Id> {
    set id | id in store && store[id].lu == Some(true)
  }

  /** Ids matched by `countDocuments({ lu: false })`. */
  function UnreadIds(store: Store): set<Id> {
    set id | id in store && store[id].lu == Some(false)
  }

  /** Ids matched by `countDocuments({ createdAt: { $gte: midnight } })`. */
  function TodayIds(store: Store, midnight: int): set<Id> {
    set id | id in store && store[id].createdAt >= midnight
  }

  lemma SubsetCard<T>(a: set<T>, b: set<T>)
    requires a <= b
    ensures |a| <= |b|
  {
    assert b == a + (b - a);
  }

  /** The read and unread ids never overlap and both lie in the store, so
      they never out-number it; they cover it exactly when every `lu` is a
      boolean. */
  lemma {:induction false} ReadUnreadPartition(store: Store)
    ensures |ReadIds(store)| + |UnreadIds(store)| <= |store|
    ensures AllLuBoolean(store) ==> |ReadIds(store)| + |UnreadIds(store)| == |store|
  {
    var r, u := ReadIds(store), UnreadIds(store);
    assert r * u == {};
    assert |r + u| == |r| + |u|;
    SubsetCard(r + u, store.Keys);
    if AllLuBoolean(store) {
      forall id | id in store.Keys
        ensures id in r + u
      {
        if store[id].lu == Some(true) {
          assert id in r;
        } else {
          assert store[id].lu.Some?;
          assert !store[id].lu.value;
          assert store[id].lu == Some(false);
          assert id in u;
        }
      }
      assert r + u == store.Keys;
    }
  }

  /** Messages created since midnight are among all messages. */
  lemma TodayBounded(store: Store, midnight: int)
    ensures |TodayIds(store, midnight)| <= |store|
  {
    SubsetCard(TodayIds(store, midnight), store.Keys);
  }
}
