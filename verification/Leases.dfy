/** Writer and observer leases on browser instances (crates/pengu-mesh-state/src/lib.rs). Each call
    is one transaction, so any interleaving of callers is a sequence of calls; the runtime's release
    and transfer begin with a prune of their own, which is a call by itself. Time stamps are text,
    and the store compares them as text. */
module Leases {
  import opened Common
  import opened TaskOrder
  import opened Timestamps

  datatype Mode = Observer | Writer

  datatype Identity = Identity(resource: string, holder: string, mode: Mode)

  datatype Lease = Lease(
    id: string, resource: string, holder: string, holderLabel: Option<string>, mode: Mode, grantedAt: string,
    expiresAt: string, lastHeartbeatAt: string)

  /** The rows, by the unique index on resource, holder and mode. */
  type Table = map<Identity, Lease>

  datatype LeaseError = HeldByOther | NoWriterLease | DuplicateId

  datatype Call =
    | Acquire(lease: Lease, now: string)
    | Release(resource: string, holder: string, only: Option<Mode>)
    | Transfer(resource: string, from: string, lease: Lease, now: string)
    | PruneExpired(now: string)

  function IdentityOf(lease: Lease): Identity {
    Identity(lease.resource, lease.holder, lease.mode)
  }

  predicate Expired(lease: Lease, now: string) {
    !StringLess(now, lease.expiresAt)
  }

  function Prune(table: Table, now: string): Table {
    map k | k in table && !Expired(table[k], now) :: table[k]
  }

  predicate WriterOn(table: Table, resource: string, k: Identity) {
    k in table && k.resource == resource && k.mode == Writer
  }

  /** Inserts the lease or renews the row with its identity; no other row may have its id. */
  function Upsert(table: Table, lease: Lease): Result<Table, LeaseError> {
    if exists k :: k in table && k != IdentityOf(lease) && table[k].id == lease.id then Err(DuplicateId)
    else Ok(table[IdentityOf(lease) := lease])
  }

  function AcquireIn(table: Table, lease: Lease, now: string): Result<Table, LeaseError> {
    var active := Prune(table, now);
    if
      && lease.mode == Writer
      && exists k :: k in active && WriterOn(active, lease.resource, k) && k.holder != lease.holder
    then
      Err(HeldByOther)
    else Upsert(active, lease)
  }

  function ReleaseIn(table: Table, resource: string, holder: string, only: Option<Mode>): Table {
    map k | k in table && !(k.resource == resource && k.holder == holder && (only.None? || k.mode == only.value)) ::
      table[k]
  }

  function TransferIn(table: Table, resource: string, from: string, lease: Lease, now: string)
    : Result<Table, LeaseError>
  {
    var active := Prune(table, now);
    var old' := Identity(resource, from, Writer);
    if old' !in active then Err(NoWriterLease) else Upsert(active - {old'}, lease)
  }

  /** The table after a call, or the error that rolls it back. */
  function Apply(table: Table, call: Call): Result<Table, LeaseError> {
    match call
    case Acquire(lease, now) => AcquireIn(table, lease, now)
    case Release(resource, holder, only) => Ok(ReleaseIn(table, resource, holder, only))
    case Transfer(resource, from, lease, now) => TransferIn(table, resource, from, lease, now)
    case PruneExpired(now) => Ok(Prune(table, now))
  }

  function After(table: Table, calls: seq<Call>): Table
    decreases |calls|
  {
    if calls == [] then table
    else
      var before := After(table, calls[..|calls| - 1]);
      match Apply(before, calls[|calls| - 1])
      case Err(error) => before
      case Ok(after) => after
  }

  /** A transfer hands over the writer lease of the resource it names, as the runtime builds it. */
  predicate WellFormed(call: Call) {
    call.Transfer? ==> call.lease.resource == call.resource && call.lease.mode == Writer
  }

  ghost predicate Valid(table: Table) {
    forall k | k in table :: IdentityOf(table[k]) == k
  }

  /** Another holder has an unexpired writer lease on the resource that `lease` is for. */
  ghost predicate WrittenByOther(table: Table, lease: Lease, now: string) {
    exists k :: k in table && k.resource == lease.resource && k.mode == Writer && k.holder != lease.holder
      && !Expired(table[k], now)
  }

  /** Observers are never refused, whoever is the writer; their rows only renew their own. */
  lemma ObserversAreAdmitted(table: Table, lease: Lease, now: string)
    requires lease.mode == Observer && forall k | k in table :: table[k].id != lease.id
    ensures AcquireIn(table, lease, now) == Ok(Prune(table, now)[IdentityOf(lease) := lease])
  {
  }

  // ----- one writer per resource

  /** No two rows, expired or not, are writer leases on one resource. */
  ghost predicate SingleWriter(table: Table) {
    forall k, l | k in table && l in table && k.mode == l.mode == Writer && k.resource == l.resource :: k == l
  }

  lemma ApplyKeepsSingleWriter(table: Table, call: Call)
    requires Valid(table) && SingleWriter(table) && WellFormed(call) && Apply(table, call).Ok?
    ensures Valid(Apply(table, call).value) && SingleWriter(Apply(table, call).value)
  {
    hide StringLess;
  }

  /** Whoever calls in whatever order, with whatever clocks, no resource ever has two writer leases. */
  lemma {:induction false} NeverTwoWriters(table: Table, calls: seq<Call>)
    requires Valid(table) && SingleWriter(table) && forall c :: c in calls ==> WellFormed(c)
    ensures Valid(After(table, calls)) && SingleWriter(After(table, calls))
  {
    hide Apply, SingleWriter;
    if calls == [] {
    } else {
      var n := |calls| - 1;
      assert calls[n] in calls && forall c :: c in calls[..n] ==> c in calls;
      NeverTwoWriters(table, calls[..n]);
      if Apply(After(table, calls[..n]), calls[n]).Ok? {
        ApplyKeepsSingleWriter(After(table, calls[..n]), calls[n]);
      }
    }
  }

  /** A transfer keeps the guarantee exactly if its replacement adds no second writer: it is an
      observer lease, or no other holder has a writer lease on the resource it is for. */
  lemma TransferIsSafeExactly(table: Table, resource: string, from: string, lease: Lease, now: string)
    requires Valid(table) && SingleWriter(table) && TransferIn(table, resource, from, lease, now).Ok?
    ensures SingleWriter(TransferIn(table, resource, from, lease, now).value) <==>
      lease.mode == Observer || lease.resource == resource
      || !exists k :: WriterOn(Prune(table, now), lease.resource, k) && k.holder != lease.holder
  {
  }

  // ----- holding on to a lease

  /** The call neither releases, transfers nor renews this writer lease. */
  predicate Untouched(call: Call, w: Lease) {
    match call
    case Acquire(lease, now) => IdentityOf(lease) != IdentityOf(w)
    case Release(resource, holder, only) =>
      !(resource == w.resource && holder == w.holder && (only.None? || only.value == Writer))
    case Transfer(resource, from, lease, now) => resource != w.resource || from != w.holder
    case PruneExpired(now) => true
  }

  /** The clock reading of a call that prunes. */
  function ClockOf(call: Call): Option<string> {
    if call.Release? then None else Some(call.now)
  }

  /** The call leaves this writer lease alone and does not come after it expires, as text. */
  predicate Spares(call: Call, w: Lease) {
    Untouched(call, w) && (ClockOf(call).Some? ==> !Expired(w, ClockOf(call).value))
  }

  ghost predicate Holds(table: Table, w: Lease) {
    w.mode == Writer && IdentityOf(w) in table && table[IdentityOf(w)] == w
  }

  /** Until it expires, a writer lease outlasts everything others do, and nobody else becomes a writer. */
  lemma {:induction false} WriterLeaseLasts(table: Table, calls: seq<Call>, w: Lease)
    requires Valid(table) && SingleWriter(table) && forall c :: c in calls ==> WellFormed(c)
    requires Holds(table, w) && forall c :: c in calls ==> Spares(c, w)
    ensures Holds(After(table, calls), w)
    ensures forall k | WriterOn(After(table, calls), w.resource, k) :: k.holder == w.holder
  {
    hide Apply, Spares;
    NeverTwoWriters(table, calls);
    if calls != [] {
      var n := |calls| - 1;
      assert calls[n] in calls && forall c :: c in calls[..n] ==> c in calls;
      WriterLeaseLasts(table, calls[..n], w);
      NeverTwoWriters(table, calls[..n]);
      if Apply(After(table, calls[..n]), calls[n]).Ok? {
        LeaseOutlastsCall(After(table, calls[..n]), calls[n], w);
      }
    }
    assert WriterOn(After(table, calls), w.resource, IdentityOf(w));
  }

  lemma LeaseOutlastsCall(table: Table, call: Call, w: Lease)
    requires Valid(table) && SingleWriter(table) && WellFormed(call) && Apply(table, call).Ok?
    requires Holds(table, w) && Spares(call, w)
    ensures Holds(Apply(table, call).value, w)
  {
  }

  // ----- expiry in real time

  /** A lease is taken for expired before its time exactly if the clock's fraction of a second and that
      of the expiry are one the beginning of the other, within the same second. */
  lemma ExpiredEarlyExactly(w: Lease, expiry: Stamp, now: Stamp)
    requires IsStamp(expiry) && IsStamp(now) && w.expiresAt == Format(expiry)
    requires Earlier(now, expiry)
    ensures Expired(w, Format(now)) <==> Confusable(now, expiry)
  {
    TextOrderIsTimeOrder(now, expiry);
  }

  /** At every time: from the expiry on a lease is expired and before it is not, the very time of the
      expiry included, except that the answer is reversed for those pairs. */
  lemma ExpiredExactly(w: Lease, expiry: Stamp, now: Stamp)
    requires IsStamp(expiry) && IsStamp(now) && w.expiresAt == Format(expiry)
    ensures Expired(w, Format(now)) <==> (Earlier(now, expiry) <==> Confusable(now, expiry))
  {
    TextOrderIsTimeOrder(now, expiry);
  }

  predicate Clear(now: Stamp, expiry: Stamp) {
    Earlier(now, expiry) && !Confusable(now, expiry)
  }

  /** The call's clock shows a time before the expiry, and not one that is confusable with it. */
  ghost predicate ClearlyBefore(call: Call, expiry: Stamp) {
    ClockOf(call).Some? ==>
      exists now :: IsStamp(now) && ClockOf(call) == Some(Format(now)) && Clear(now, expiry)
  }

  /** Hence in real time: a writer lease outlasts everything others do until the second it expires in,
      and within that second at every time that is not confusable with the expiry. */
  lemma WriterLeaseLastsInTime(table: Table, calls: seq<Call>, w: Lease, expiry: Stamp)
    requires Valid(table) && SingleWriter(table) && forall c :: c in calls ==> WellFormed(c)
    requires Holds(table, w) && IsStamp(expiry) && w.expiresAt == Format(expiry)
    requires forall c :: c in calls ==> Untouched(c, w) && ClearlyBefore(c, expiry)
    ensures Holds(After(table, calls), w)
    ensures forall k | WriterOn(After(table, calls), w.resource, k) :: k.holder == w.holder
  {
    hide Untouched;
    forall c | c in calls ensures Spares(c, w) {
      if ClockOf(c).Some? {
        var now :| IsStamp(now) && ClockOf(c) == Some(Format(now)) && Clear(now, expiry);
        ExpiredEarlyExactly(w, expiry, now);
      }
    }
    WriterLeaseLasts(table, calls, w);
  }

  // ----- who gets a lease

  /** Exactly when an unheld writer lease can be had: nobody else's is unexpired (fresh ids aside). */
  lemma WriterIsGrantedExactly(table: Table, lease: Lease, now: string)
    requires Valid(table) && SingleWriter(table) && lease.mode == Writer
    requires forall k | k in table :: table[k].id != lease.id
    ensures AcquireIn(table, lease, now).Ok? <==>
      forall k | WriterOn(table, lease.resource, k) && k.holder != lease.holder :: Expired(table[k], now)
  {
  }

  /** Over any sequence of calls that spares a writer lease, another holder's request is granted
      exactly if that lease has expired by then. */
  lemma OthersWaitForExpiry(table: Table, calls: seq<Call>, w: Lease, lease: Lease, now: string)
    requires Valid(table) && SingleWriter(table) && forall c :: c in calls ==> WellFormed(c)
    requires Holds(table, w) && forall c :: c in calls ==> Spares(c, w)
    requires lease.mode == Writer && lease.resource == w.resource && lease.holder != w.holder
    requires forall k | k in After(table, calls) :: After(table, calls)[k].id != lease.id
    ensures AcquireIn(After(table, calls), lease, now).Ok? <==> Expired(w, now)
  {
    hide After, AcquireIn, Spares, Expired, SingleWriter;
    NeverTwoWriters(table, calls);
    WriterLeaseLasts(table, calls, w);
    WriterIsGrantedExactly(After(table, calls), lease, now);
    OnlyWriter(After(table, calls), w);
  }

  lemma OnlyWriter(table: Table, w: Lease)
    requires SingleWriter(table) && Holds(table, w)
    ensures WriterOn(table, w.resource, IdentityOf(w))
    ensures forall k | WriterOn(table, w.resource, k) :: k == IdentityOf(w) && table[k] == w
  {
  }

  /** Of two callers who ask for a free resource at once, the first to be served gets it. */
  lemma ExactlyOneOfTwoAcquires(table: Table, a: Lease, b: Lease, now: string)
    requires Valid(table) && SingleWriter(table)
    requires a.mode == b.mode == Writer && a.resource == b.resource && a.holder != b.holder && a.id != b.id
    requires !Expired(a, now) && !Expired(b, now)
    requires forall k | k in table :: table[k].id != a.id && table[k].id != b.id
    requires forall k | WriterOn(table, a.resource, k) :: Expired(table[k], now)
    ensures After(table, [Acquire(a, now), Acquire(b, now)]) == After(table, [Acquire(a, now)])
    ensures Holds(After(table, [Acquire(a, now), Acquire(b, now)]), a)
  {
    hide StringLess;
    var first := AcquireIn(table, a, now);
    assert first.Ok?;
    assert Holds(first.value, a);
    assert WriterOn(Prune(first.value, now), b.resource, IdentityOf(a));
    assert AcquireIn(first.value, b, now) == Err(HeldByOther);
    assert [Acquire(a, now)][..0] == [];
    assert After(table, [Acquire(a, now)]) == first.value;
    assert [Acquire(a, now), Acquire(b, now)][..1] == [Acquire(a, now)];
  }

  // ----- the imperative form

  class LeaseStore {
    var rows: Table

    /** Returns whether the lease renews one the holder already has. */
    method AcquireLease(lease: Lease, now: string) returns (r: Result<bool, LeaseError>)
      requires Valid(rows) && SingleWriter(rows)
      modifies this
      ensures match Apply(old(rows), Acquire(lease, now))
        case Ok(after) => r == Ok(IdentityOf(lease) in Prune(old(rows), now)) && rows == after
        case Err(error) => r == Err(error) && rows == old(rows)
      ensures r == Err(HeldByOther) <==> lease.mode == Writer && WrittenByOther(old(rows), lease, now)
      ensures r.Ok? ==>
        && (r.value <==> IdentityOf(lease) in old(rows) && !Expired(old(rows)[IdentityOf(lease)], now))
        && IdentityOf(lease) in rows && rows[IdentityOf(lease)] == lease
        && forall k | k != IdentityOf(lease) ::
             if k in old(rows) && !Expired(old(rows)[k], now) then k in rows && rows[k] == old(rows)[k] else k !in rows
      ensures r.Err? ==> rows == old(rows)
    {
      hide StringLess;
      var active := Prune(rows, now);
      var renewed := IdentityOf(lease) in active;
      if lease.mode == Writer && exists k :: k in active && WriterOn(active, lease.resource, k) {
        // the first writer lease granted; there is no other
        var k :| k in active && WriterOn(active, lease.resource, k);
        if active[k].holder != lease.holder {
          assert IdentityOf(active[k]) == k;
          return Err(HeldByOther);
        }
        assert k in rows && forall l | WriterOn(active, lease.resource, l) :: l in rows;
      }
      var written := Upsert(active, lease);
      if written.Err? {
        return Err(written.error);
      }
      rows := written.value;
      return Ok(renewed);
    }

    method TransferWriterLease(resource: string, from: string, replacement: Lease, now: string)
      returns (r: Result<(), LeaseError>)
      modifies this
      ensures match Apply(old(rows), Transfer(resource, from, replacement, now))
        case Ok(after) => r == Ok(()) && rows == after
        case Err(error) => r == Err(error) && rows == old(rows)
      ensures r == Err(NoWriterLease) <==>
        var held := Identity(resource, from, Writer); held !in old(rows) || Expired(old(rows)[held], now)
      ensures r.Ok? ==>
        var held, new' := Identity(resource, from, Writer), IdentityOf(replacement);
        && new' in rows && rows[new'] == replacement
        && (new' != held ==> held !in rows)
        && forall k | k != held && k != new' ::
             if k in old(rows) && !Expired(old(rows)[k], now) then k in rows && rows[k] == old(rows)[k] else k !in rows
    {
      hide StringLess;
      var active := Prune(rows, now);
      var deleted := Identity(resource, from, Writer);
      if deleted !in active {
        return Err(NoWriterLease);
      }
      var written := Upsert(active - {deleted}, replacement);
      if written.Err? {
        return Err(written.error);
      }
      rows := written.value;
      return Ok(());
    }

    /** Returns how many rows went: one for a mode, or one for each. */
    method DeleteLeases(resource: string, holder: string, only: Option<Mode>) returns (deleted: nat)
      modifies this
      ensures Apply(old(rows), Release(resource, holder, only)) == Ok(rows)
      ensures forall k :: k in rows <==>
        k in old(rows) && !(k.resource == resource && k.holder == holder && (only.None? || k.mode == only.value))
      ensures forall k | k in rows :: rows[k] == old(rows)[k]
      ensures deleted == |old(rows)| - |rows| <= if only.None? then 2 else 1
    {
      var before := rows;
      rows := ReleaseIn(rows, resource, holder, only);
      FewAreDeleted(before, resource, holder, only);
      deleted := |before| - |rows|;
    }
  }

  lemma FewAreDeleted(table: Table, resource: string, holder: string, only: Option<Mode>)
    ensures |table| - (if only.None? then 2 else 1) <= |ReleaseIn(table, resource, holder, only)| <= |table|
  {
    var rest := ReleaseIn(table, resource, holder, only);
    var gone := table.Keys - rest.Keys;
    assert table.Keys == rest.Keys + gone;
    assert forall k | k in gone :: k == Identity(resource, holder, k.mode) && (k.mode == Observer || k.mode == Writer);
    if only.Some? {
      SubsetIsSmaller(gone, {Identity(resource, holder, only.value)});
    } else {
      SubsetIsSmaller(gone, {Identity(resource, holder, Observer), Identity(resource, holder, Writer)});
    }
  }

  lemma SubsetIsSmaller(a: set<Identity>, b: set<Identity>)
    requires a <= b
    ensures |a| <= |b|
  {
    assert b == a + (b - a);
  }
}
