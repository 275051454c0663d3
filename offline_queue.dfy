/** The offline replay queue (src/services/offlineQueue.ts) over the
    `pendingOperations` table of the browser database (src/db/index.ts).

    The table is modelled by its observable contract: records keyed by an
    auto-incremented id starting at 1, read back ordered by `createdAt` (ties
    in id order, as an IndexedDB index orders them). The processor the caller
    passes in is a function from an operation to its outcome, the browser's
    `navigator.onLine` is the parameter `offline`, and the clock is `now`. */
module OfflineQueue {
  import opened Wrappers
  import opened Types

  /** A stored `OfflineOperation<ParticipantUpdate>`; `id` is absent until the
      table assigns one. */
  datatype PendingOperation = PendingOperation(id: Option<nat>, kind: string, payload: ParticipantUpdate, createdAt: int)

  /** A value thrown by the processor: an `Error` instance with its
      `message`, or some other value (`isError` false). */
  datatype Thrown = Thrown(isError: bool, message: string)

  /** How one call of the processor ends. */
  datatype ProcessResult = Done | Threw(error: Thrown)

  // ---------------------------------------------------------------------------
  // Ordering of the table: orderBy('createdAt')
  // ---------------------------------------------------------------------------

  /** The primary key of a record, 0 standing for none. */
  function IdOf(op: PendingOperation): nat
  {
    if op.id.Some? then op.id.value else 0
  }

  /** `a` comes before `b` in `createdAt` order, ties broken by primary key. */
  predicate Before(a: PendingOperation, b: PendingOperation)
  {
    a.createdAt < b.createdAt || (a.createdAt == b.createdAt && IdOf(a) < IdOf(b))
  }

  predicate StrictlySorted(s: seq<PendingOperation>)
  {
    forall i, j :: 0 <= i < j < |s| ==> Before(s[i], s[j])
  }

  predicate DistinctIds(s: seq<PendingOperation>)
  {
    forall i, j :: 0 <= i < j < |s| ==> IdOf(s[i]) != IdOf(s[j])
  }

  /** Two records with different keys are ordered one way or the other, and
      never both ways. */
  lemma BeforeIsTotal(a: PendingOperation, b: PendingOperation)
    ensures IdOf(a) != IdOf(b) ==> Before(a, b) || Before(b, a)
    ensures !(Before(a, b) && Before(b, a))
  {
  }

  /** `x` placed into `s` ahead of the first entry it comes before. */
  function Insert(x: PendingOperation, s: seq<PendingOperation>): (r: seq<PendingOperation>)
    ensures |r| == |s| + 1
    ensures forall z :: z in r <==> z == x || z in s
  {
    if s == [] then [x]
    else if Before(s[0], x) then [s[0]] + Insert(x, s[1..])
    else [x] + s
  }

  /** Insertion sort by `Before`. */
  function Sort(s: seq<PendingOperation>): (r: seq<PendingOperation>)
    ensures |r| == |s|
    ensures forall z :: z in r <==> z in s
  {
    if s == [] then [] else Insert(s[0], Sort(s[1..]))
  }

  /** Insertion adds exactly one copy of `x`. */
  lemma {:induction false} InsertAddsOne(x: PendingOperation, s: seq<PendingOperation>)
    ensures multiset(Insert(x, s)) == multiset(s) + multiset{x}
  {
    if s != [] {
      assert s == [s[0]] + s[1..];
      if Before(s[0], x) {
        InsertAddsOne(x, s[1..]);
      }
    }
  }

  /** Sorting rearranges its input: every record keeps its multiplicity. */
  lemma {:induction false} SortPermutes(s: seq<PendingOperation>)
    ensures multiset(Sort(s)) == multiset(s)
  {
    if s != [] {
      assert s == [s[0]] + s[1..];
      SortPermutes(s[1..]);
      InsertAddsOne(s[0], Sort(s[1..]));
    }
  }

  lemma {:induction false} InsertSorted(x: PendingOperation, s: seq<PendingOperation>)
    requires StrictlySorted(s)
    requires forall y :: y in s ==> IdOf(y) != IdOf(x)
    ensures StrictlySorted(Insert(x, s))
  {
    if s != [] {
      if Before(s[0], x) {
        InsertSorted(x, s[1..]);
        var rest := Insert(x, s[1..]);
        forall z | z in rest ensures Before(s[0], z) {
          if z != x {
            var j :| 0 <= j < |s[1..]| && s[1..][j] == z;
            assert s[j + 1] == z;
          }
        }
        var r := [s[0]] + rest;
        forall i, j | 0 <= i < j < |r| ensures Before(r[i], r[j]) {
          assert r[j] == rest[j - 1] && r[j] in rest;
          if i > 0 {
            assert r[i] == rest[i - 1];
          }
        }
      } else {
        BeforeIsTotal(s[0], x);
        var r := [x] + s;
        forall i, j | 0 <= i < j < |r| ensures Before(r[i], r[j]) {
          assert r[j] == s[j - 1];
          if i > 0 {
            assert r[i] == s[i - 1];
          }
        }
      }
    }
  }

  lemma {:induction false} SortSorted(s: seq<PendingOperation>)
    requires DistinctIds(s)
    ensures StrictlySorted(Sort(s))
  {
    if s != [] {
      assert DistinctIds(s[1..]) by {
        forall i, j | 0 <= i < j < |s[1..]| ensures IdOf(s[1..][i]) != IdOf(s[1..][j]) {
          assert s[1..][i] == s[i + 1] && s[1..][j] == s[j + 1];
        }
      }
      SortSorted(s[1..]);
      forall y | y in Sort(s[1..]) ensures IdOf(y) != IdOf(s[0]) {
        var j :| 0 <= j < |s[1..]| && s[1..][j] == y;
        assert s[j + 1] == y;
      }
      InsertSorted(s[0], Sort(s[1..]));
    }
  }

  lemma HeadIsMember(s: seq<PendingOperation>)
    ensures s != [] ==> s[0] in s
  {
  }

  /** A strictly sorted enumeration of a collection is unique. */
  lemma {:induction false} SortedUnique(a: seq<PendingOperation>, b: seq<PendingOperation>)
    requires StrictlySorted(a) && StrictlySorted(b)
    requires forall z :: z in a <==> z in b
    ensures a == b
  {
    if a == [] {
      HeadIsMember(b);
    } else {
      assert a[0] in b;
      assert b != [];
      var k :| 0 <= k < |b| && b[k] == a[0];
      assert b[0] in a;
      var i :| 0 <= i < |a| && a[i] == b[0];
      if k > 0 {
        assert Before(b[0], b[k]);
        if i > 0 {
          assert Before(a[0], a[i]);
          BeforeIsTotal(a[0], a[i]);
        }
        assert false;
      }
      forall z ensures z in a[1..] <==> z in b[1..] {
        if z in a[1..] {
          var j :| 0 <= j < |a[1..]| && a[1..][j] == z;
          assert a[j + 1] == z && Before(a[0], z);
          assert z in b && z != b[0];
          var m :| 0 <= m < |b| && b[m] == z;
          assert b[1..][m - 1] == z;
        }
        if z in b[1..] {
          var j :| 0 <= j < |b[1..]| && b[1..][j] == z;
          assert b[j + 1] == z && Before(b[0], z);
          assert z in a && z != a[0];
          var m :| 0 <= m < |a| && a[m] == z;
          assert a[1..][m - 1] == z;
        }
      }
      assert StrictlySorted(a[1..]) by {
        forall i', j' | 0 <= i' < j' < |a[1..]| ensures Before(a[1..][i'], a[1..][j']) {
          assert a[1..][i'] == a[i' + 1] && a[1..][j'] == a[j' + 1];
        }
      }
      assert StrictlySorted(b[1..]) by {
        forall i', j' | 0 <= i' < j' < |b[1..]| ensures Before(b[1..][i'], b[1..][j']) {
          assert b[1..][i'] == b[i' + 1] && b[1..][j'] == b[j' + 1];
        }
      }
      SortedUnique(a[1..], b[1..]);
      assert a == [a[0]] + a[1..] && b == [b[0]] + b[1..];
    }
  }

  // ---------------------------------------------------------------------------
  // The pendingOperations table
  // ---------------------------------------------------------------------------

  /** The table's invariant: every key is an id already handed out (ids start
      at 1), and each record carries its own key as `id`. */
  predicate ValidTable(m: map<nat, PendingOperation>, nextId: nat)
  {
    1 <= nextId && forall k :: k in m ==> 1 <= k < nextId && m[k].id == Some(k)
  }

  /** The records whose key is below `n`, in key order. */
  function Listing(m: map<nat, PendingOperation>, n: nat): (s: seq<PendingOperation>)
    ensures forall z :: z in s <==> exists k :: k in m && k < n && m[k] == z
  {
    if n == 0 then [] else Listing(m, n - 1) + (if n - 1 in m then [m[n - 1]] else [])
  }

  /** `orderBy('createdAt').toArray()` over a table whose ids are below
      `nextId`. */
  function Queued(m: map<nat, PendingOperation>, nextId: nat): (q: seq<PendingOperation>)
    ensures |q| == |Listing(m, nextId)|
    ensures forall z :: z in q <==> exists k :: k in m && k < nextId && m[k] == z
  {
    Sort(Listing(m, nextId))
  }

  lemma {:induction false} ListingDistinct(m: map<nat, PendingOperation>, n: nat)
    requires forall k :: k in m ==> m[k].id == Some(k)
    ensures DistinctIds(Listing(m, n))
    ensures forall z :: z in Listing(m, n) ==> IdOf(z) < n
  {
    if n > 0 {
      ListingDistinct(m, n - 1);
      var front := Listing(m, n - 1);
      var s := Listing(m, n);
      assert s == front + (if n - 1 in m then [m[n - 1]] else []);
      forall i, j | 0 <= i < j < |s| ensures IdOf(s[i]) != IdOf(s[j]) {
        assert s[i] in front;
        if j >= |front| {
          assert s[j] == m[n - 1];
        }
      }
    }
  }

  /** The queue lists every record of the table exactly once, in
      (`createdAt`, id) order. */
  lemma QueuedIsOrdered(m: map<nat, PendingOperation>, nextId: nat)
    requires ValidTable(m, nextId)
    ensures StrictlySorted(Queued(m, nextId))
    ensures forall z :: z in Queued(m, nextId) <==> exists k :: k in m && m[k] == z
  {
    ListingDistinct(m, nextId);
    SortSorted(Listing(m, nextId));
  }

  /** The ids `processQueue` deletes after processing `ops`: those that are
      present and non-zero. */
  function DeletedIds(ops: seq<PendingOperation>): set<nat>
  {
    set op | op in ops && op.id.Some? && op.id.value != 0 :: op.id.value
  }

  /** A suffix of a strictly ordered sequence is strictly ordered. */
  lemma SuffixSorted(q: seq<PendingOperation>, d: nat)
    requires StrictlySorted(q) && d <= |q|
    ensures StrictlySorted(q[d..])
  {
    forall i, j | 0 <= i < j < |q[d..]| ensures Before(q[d..][i], q[d..][j]) {
      assert q[d..][i] == q[i + d] && q[d..][j] == q[j + d];
    }
  }

  /** A record of the queue past position `d` keeps its key when the ids of
      the first `d` records are deleted. */
  lemma KeptPastPrefix(m: map<nat, PendingOperation>, nextId: nat, d: nat, j: nat)
    requires ValidTable(m, nextId)
    requires StrictlySorted(Queued(m, nextId))
    requires forall z :: z in Queued(m, nextId) <==> exists k :: k in m && m[k] == z
    requires d <= j < |Queued(m, nextId)|
    ensures var z := Queued(m, nextId)[j];
            z.id.Some? && z.id.value in m - DeletedIds(Queued(m, nextId)[..d])
            && (m - DeletedIds(Queued(m, nextId)[..d]))[z.id.value] == z
  {
    var q := Queued(m, nextId);
    var z := q[j];
    assert z in q;
    var k :| k in m && m[k] == z;
    forall op | op in q[..d] ensures op.id != Some(k) {
      var i :| 0 <= i < d && q[..d][i] == op;
      assert q[i] == op && Before(q[i], q[j]);
      assert op in q;
      var k' :| k' in m && m[k'] == op;
    }
  }

  /** Deleting the records of a prefix of the queue leaves exactly the rest of
      the queue, in the same order. */
  lemma QueuedAfterDeletingPrefix(m: map<nat, PendingOperation>, nextId: nat, d: nat)
    requires ValidTable(m, nextId)
    requires d <= |Queued(m, nextId)|
    ensures ValidTable(m - DeletedIds(Queued(m, nextId)[..d]), nextId)
    ensures Queued(m - DeletedIds(Queued(m, nextId)[..d]), nextId) == Queued(m, nextId)[d..]
  {
    var q := Queued(m, nextId);
    var m' := m - DeletedIds(q[..d]);
    QueuedIsOrdered(m, nextId);
    QueuedIsOrdered(m', nextId);
    var q' := Queued(m', nextId);
    forall z ensures z in q' <==> z in q[d..] {
      if z in q' {
        var k :| k in m' && m'[k] == z;
        assert z in q;
        var j :| 0 <= j < |q| && q[j] == z;
        assert q[d..][j - d] == z;
      }
      if z in q[d..] {
        var j :| 0 <= j < |q[d..]| && q[d..][j] == z;
        assert q[j + d] == z;
        KeptPastPrefix(m, nextId, d, j + d);
      }
    }
    SuffixSorted(q, d);
    SortedUnique(q', q[d..]);
  }

  /** The records of the table after adding `x` under a fresh key are those of
      the queue before, and `x`. */
  lemma AddedMembers(m: map<nat, PendingOperation>, nextId: nat, x: PendingOperation)
    requires ValidTable(m, nextId)
    requires x.id == Some(nextId)
    ensures ValidTable(m[nextId := x], nextId + 1)
    ensures forall z :: z in Queued(m[nextId := x], nextId + 1) <==> z in Queued(m, nextId) + [x]
  {
    var m' := m[nextId := x];
    var q, q' := Queued(m, nextId), Queued(m', nextId + 1);
    forall z ensures z in q' <==> z in q + [x] {
      if z in q {
        var k :| k in m && k < nextId && m[k] == z;
        assert k in m' && k < nextId + 1 && m'[k] == z;
      }
      if z in q' && z != x {
        var k :| k in m' && k < nextId + 1 && m'[k] == z;
        assert k in m && k < nextId && m[k] == z;
      }
      if z == x {
        assert nextId in m' && m'[nextId] == x;
      }
    }
  }

  /** Appending a record that comes after every entry keeps the order strict. */
  lemma AppendSorted(q: seq<PendingOperation>, x: PendingOperation)
    requires StrictlySorted(q)
    requires forall y :: y in q ==> Before(y, x)
    ensures StrictlySorted(q + [x])
  {
    var e := q + [x];
    forall i, j | 0 <= i < j < |e| ensures Before(e[i], e[j]) {
      assert e[i] == q[i] && q[i] in q;
      if j < |q| {
        assert e[j] == q[j];
      }
    }
  }

  /** A record created no earlier than every queued one joins the end of the
      queue: first in, first out. */
  lemma AddedLastQueuesLast(m: map<nat, PendingOperation>, nextId: nat, x: PendingOperation)
    requires ValidTable(m, nextId)
    requires x.id == Some(nextId)
    requires forall k :: k in m ==> m[k].createdAt <= x.createdAt
    ensures ValidTable(m[nextId := x], nextId + 1)
    ensures Queued(m[nextId := x], nextId + 1) == Queued(m, nextId) + [x]
  {
    QueuedIsOrdered(m, nextId);
    AddedMembers(m, nextId, x);
    QueuedIsOrdered(m[nextId := x], nextId + 1);
    var q := Queued(m, nextId);
    forall y | y in q ensures Before(y, x) {
      var k :| k in m && m[k] == y;
    }
    AppendSorted(q, x);
    SortedUnique(Queued(m[nextId := x], nextId + 1), q + [x]);
  }

  /** The Dexie table `pendingOperations` with its `++id` key generator. */
  class PendingOperationTable {
    var records: map<nat, PendingOperation>
    var nextId: nat

    predicate Valid()
      reads this
    {
      ValidTable(records, nextId)
    }

    constructor()
      ensures Valid() && records == map[] && nextId == 1
    {
      records := map[];
      nextId := 1;
    }

    /** The records ordered by `createdAt`, ties by id. */
    function Ordered(): seq<PendingOperation>
      reads this
    {
      Queued(records, nextId)
    }

    /** `add`: store `op` under the next id and return that id. */
    method Add(op: PendingOperation) returns (id: nat)
      requires Valid()
      modifies this
      ensures Valid()
      ensures id == old(nextId) && id !in old(records) && nextId == old(nextId) + 1
      ensures records == old(records)[id := op.(id := Some(id))]
    {
      id := nextId;
      records := records[id := op.(id := Some(id))];
      nextId := nextId + 1;
    }

    /** `delete`: remove the record with key `id`, if there is one. */
    method Delete(id: nat)
      requires Valid()
      modifies this
      ensures Valid()
      ensures records == old(records) - {id} && nextId == old(nextId)
    {
      records := records - {id};
    }
  }

  // ---------------------------------------------------------------------------
  // shouldRetry
  // ---------------------------------------------------------------------------

  /** ASCII lower-casing, the only case folding `/timeout/i` performs on the
      letters of its pattern. */
  function LowerAscii(c: char): char
  {
    if 'A' <= c <= 'Z' then (c as int + 32) as char else c
  }

  predicate EqualsIgnoringCase(w: string, target: string)
  {
    |w| == |target| && forall k :: 0 <= k < |w| ==> LowerAscii(w[k]) == LowerAscii(target[k])
  }

  /** `word` occurs in `s` at offset `i`, letter case aside. */
  predicate OccursAt(s: string, word: string, i: nat)
  {
    i + |word| <= |s| && EqualsIgnoringCase(s[i..i + |word|], word)
  }

  /** Whether `word` occurs anywhere in `s`, letter case aside. */
  function ContainsIgnoringCase(s: string, word: string): (b: bool)
    ensures b <==> exists i: nat :: OccursAt(s, word, i)
  {
    if |s| < |word| then false
    else if OccursAt(s, word, 0) then true
    else
      var rest := ContainsIgnoringCase(s[1..], word);
      assert forall i: nat :: OccursAt(s[1..], word, i) <==> OccursAt(s, word, i + 1) by {
        forall i: nat ensures OccursAt(s[1..], word, i) <==> OccursAt(s, word, i + 1) {
          if i + 1 + |word| <= |s| {
            assert s[1..][i..i + |word|] == s[i + 1..i + 1 + |word|];
          }
        }
      }
      assert forall i: nat :: OccursAt(s, word, i) ==> i == 0 || OccursAt(s[1..], word, i - 1);
      rest
  }

  /** `shouldRetry`: retry when the browser is offline, or when the error is an
      `Error` whose message contains "timeout" in any letter case. */
  function ShouldRetry(offline: bool, e: Thrown): (b: bool)
    ensures offline ==> b
    ensures !offline ==> (b <==> e.isError && exists i: nat :: OccursAt(e.message, "timeout", i))
  {
    offline || (e.isError && ContainsIgnoringCase(e.message, "timeout"))
  }

  lemma RetryOnTimeoutInAnyCase()
    ensures ShouldRetry(false, Thrown(true, "Request TimeOut"))
  {
    var m := "Request TimeOut";
    assert m[8..15] == "TimeOut";
    assert OccursAt(m, "timeout", 8);
  }

  lemma NoRetryOnOtherErrors()
    ensures !ShouldRetry(false, Thrown(true, "Network error"))
    ensures !ShouldRetry(false, Thrown(false, "timeout"))
    ensures ShouldRetry(true, Thrown(false, "bad request"))
  {
    var m := "Network error";
    forall i: nat ensures !OccursAt(m, "timeout", i) {
      if i + 7 <= |m| {
        assert m[i..i + 7][0] == m[i];
        if i == 2 {
          assert m[i..i + 7][1] == m[3];
        }
      }
    }
  }

  // ---------------------------------------------------------------------------
  // The service
  // ---------------------------------------------------------------------------

  /** How many operations of `calls` were processed successfully: all of them,
      unless the last one threw. */
  function Succeeded(calls: seq<PendingOperation>, processor: PendingOperation -> ProcessResult): nat
  {
    if calls != [] && processor(calls[|calls| - 1]).Threw? then |calls| - 1 else |calls|
  }

  lemma DeletedIdsAppend(ops: seq<PendingOperation>, op: PendingOperation)
    ensures DeletedIds(ops + [op]) == DeletedIds(ops) + DeletedIds([op])
  {
  }

  /** `OfflineQueueService` over the shared database table `db`. */
  class OfflineQueueService {
    const db: PendingOperationTable

    constructor(db: PendingOperationTable)
      ensures this.db == db
    {
      this.db := db;
    }

    /** `addToQueue`: store the operation, stamped with `now` unless it
        carries its own `createdAt`, and return the id the table assigned. */
    method AddToQueue(kind: string, payload: ParticipantUpdate, createdAt: Option<int>, now: int)
      returns (id: nat)
      requires db.Valid()
      modifies db
      ensures db.Valid()
      ensures id == old(db.nextId) && id !in old(db.records) && db.nextId == old(db.nextId) + 1
      ensures db.records == old(db.records)[id := PendingOperation(Some(id), kind, payload,
                                                                    if createdAt.Some? then createdAt.value else now)]
      ensures (forall k :: k in old(db.records) ==> old(db.records)[k].createdAt <= db.records[id].createdAt) ==>
                db.Ordered() == old(db.Ordered()) + [db.records[id]]
    {
      var stamp := if createdAt.Some? then createdAt.value else now;
      ghost var before := db.records;
      id := db.Add(PendingOperation(None, kind, payload, stamp));
      if forall k :: k in before ==> before[k].createdAt <= stamp {
        AddedLastQueuesLast(before, id, db.records[id]);
      }
    }

    /** `getQueuedOperations`: every queued record, oldest first. */
    method GetQueuedOperations() returns (ops: seq<PendingOperation>)
      requires db.Valid()
      ensures ops == db.Ordered()
      ensures StrictlySorted(ops)
      ensures forall z :: z in ops <==> z in db.records.Values
    {
      QueuedIsOrdered(db.records, db.nextId);
      ops := db.Ordered();
      forall z ensures z in ops <==> z in db.records.Values {
        if z in db.records.Values {
          var k :| k in db.records && db.records[k] == z;
        }
      }
    }

    /** `processQueue`: hand the queued operations, oldest first, to
        `processor`; delete each one that succeeds (when it has an id); stop
        at the first that throws, and rethrow what it threw unless
        `ShouldRetry` says the failure is worth retrying later. `calls` lists
        the operations handed to the processor. */
    method ProcessQueue(processor: PendingOperation -> ProcessResult, offline: bool)
      returns (r: Outcome<Thrown>, calls: seq<PendingOperation>)
      requires db.Valid()
      modifies db
      ensures db.Valid() && db.nextId == old(db.nextId)
      ensures |calls| <= |old(db.Ordered())| && calls == old(db.Ordered())[..|calls|]
      ensures forall k :: 0 <= k < |calls| - 1 ==> processor(calls[k]).Done?
      ensures |calls| < |old(db.Ordered())| ==> calls != [] && processor(calls[|calls| - 1]).Threw?
      ensures r.Fail? <==> calls != [] && processor(calls[|calls| - 1]).Threw?
                           && !ShouldRetry(offline, processor(calls[|calls| - 1]).error)
      ensures r.Fail? ==> r.error == processor(calls[|calls| - 1]).error
      ensures db.records == old(db.records) - DeletedIds(calls[..Succeeded(calls, processor)])
      ensures db.Ordered() == old(db.Ordered())[Succeeded(calls, processor)..]
    {
      var queued := GetQueuedOperations();
      ghost var m0 := db.records;
      var done;
      r, calls, done := Replay(queued, processor, offline);
      assert Succeeded(calls, processor) == done;
      assert calls[..done] == queued[..done];
      QueuedAfterDeletingPrefix(m0, db.nextId, done);
    }

    /** The loop of `processQueue` over the snapshot `queued`; `done` counts
        the operations that succeeded. */
    method Replay(queued: seq<PendingOperation>, processor: PendingOperation -> ProcessResult, offline: bool)
      returns (r: Outcome<Thrown>, calls: seq<PendingOperation>, done: nat)
      requires db.Valid()
      modifies db
      ensures db.Valid() && db.nextId == old(db.nextId)
      ensures done <= |calls| <= |queued| && calls == queued[..|calls|]
      ensures forall k :: 0 <= k < done ==> processor(queued[k]).Done?
      ensures done == |calls| ==> done == |queued|
      ensures done < |calls| ==> |calls| == done + 1 && processor(queued[done]).Threw?
      ensures r.Fail? <==> done < |calls| && !ShouldRetry(offline, processor(queued[done]).error)
      ensures r.Fail? ==> r.error == processor(queued[done]).error
      ensures db.records == old(db.records) - DeletedIds(queued[..done])
    {
      calls := [];
      r := Pass;
      done := 0;
      var stopped := false;
      while done < |queued| && !stopped
        invariant 0 <= done <= |queued|
        invariant db.Valid() && db.nextId == old(db.nextId)
        invariant stopped ==> done < |queued| && processor(queued[done]).Threw?
        invariant calls == queued[..if stopped then done + 1 else done]
        invariant forall k :: 0 <= k < done ==> processor(queued[k]).Done?
        invariant db.records == old(db.records) - DeletedIds(queued[..done])
        invariant r.Fail? <==> stopped && !ShouldRetry(offline, processor(queued[done]).error)
        invariant r.Fail? ==> r.error == processor(queued[done]).error
        decreases |queued| - done, if stopped then 0 else 1
      {
        var operation := queued[done];
        var result := processor(operation);
        calls := calls + [operation];
        assert calls == queued[..done + 1];
        if result.Threw? {
          if !ShouldRetry(offline, result.error) {
            r := Fail(result.error);
          }
          stopped := true;
        } else {
          DeleteIfKeyed(operation);
          DeletedIdsAppend(queued[..done], operation);
          assert queued[..done + 1] == queued[..done] + [operation];
          done := done + 1;
        }
      }
    }

    /** `if (operation.id) await db.pendingOperations.delete(operation.id)`. */
    method DeleteIfKeyed(operation: PendingOperation)
      requires db.Valid()
      modifies db
      ensures db.Valid() && db.nextId == old(db.nextId)
      ensures db.records == old(db.records) - DeletedIds([operation])
    {
      if operation.id.Some? && operation.id.value != 0 {
        db.Delete(operation.id.value);
        assert DeletedIds([operation]) == {operation.id.value};
      } else {
        assert DeletedIds([operation]) == {};
      }
    }
  }
}
