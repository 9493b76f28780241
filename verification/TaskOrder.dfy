/** The order in which waiting tasks are served (crates/pengu-mesh-core/src/task_queue.rs). */
module TaskOrder {

  type Priority = x: int | 0 <= x < 256

  /** A waiting task. `enqueuedAt` stands for the monotonic clock reading of the source. */
  datatype Task = Task(id: string, agentId: string, priority: Priority, enqueuedAt: int)

  datatype Ordering = Less | Equal | Greater

  /** Which service, counted from one, an agent received last. Agents never served are absent. */
  type ServiceLog = map<string, nat>

  /** The byte-wise order of strings: lexicographic, a proper prefix first. */
  predicate StringLess(a: string, b: string) {
    if b == [] then false
    else if a == [] then true
    else a[0] < b[0] || (a[0] == b[0] && StringLess(a[1..], b[1..]))
  }

  function CompareFairness(last: ServiceLog, candidate: string, best: string): Ordering {
    if candidate !in last && best !in last then Equal
    else if candidate !in last then Less
    else if best !in last then Greater
    else if last[candidate] < last[best] then Less
    else if last[candidate] > last[best] then Greater
    else Equal
  }

  /** Does `candidate` go before `best`, given who was served when? */
  predicate Beats(last: ServiceLog, candidate: Task, best: Task) {
    if candidate.priority != best.priority then candidate.priority > best.priority
    else
      match CompareFairness(last, candidate.agentId, best.agentId)
      case Less => true
      case Greater => false
      case Equal =>
        if candidate.enqueuedAt != best.enqueuedAt then candidate.enqueuedAt < best.enqueuedAt
        else if candidate.agentId != best.agentId then StringLess(candidate.agentId, best.agentId)
        else StringLess(candidate.id, best.id)
  }

  lemma {:induction false} StringLessIrreflexive(a: string)
    ensures !StringLess(a, a)
  {
    if a == [] {
    } else {
      StringLessIrreflexive(a[1..]);
    }
  }

  lemma {:induction false} StringLessTransitive(a: string, b: string, c: string)
    requires StringLess(a, b) && StringLess(b, c)
    ensures StringLess(a, c)
  {
    if a != [] && a[0] == b[0] && b[0] == c[0] {
      StringLessTransitive(a[1..], b[1..], c[1..]);
    }
  }

  lemma {:induction false} StringLessTotal(a: string, b: string)
    requires a != b
    ensures StringLess(a, b) || StringLess(b, a)
  {
    if a != [] && b != [] && a[0] == b[0] {
      assert a == [a[0]] + a[1..] && b == [b[0]] + b[1..];
      StringLessTotal(a[1..], b[1..]);
    }
  }

  /** At position `k` the strings differ for the first time, and `a` has the smaller character. */
  predicate SmallerAt(a: string, b: string, k: int) {
    0 <= k < |a| && k < |b| && a[..k] == b[..k] && a[k] < b[k]
  }

  lemma SmallerLater(a: string, b: string, k: int)
    requires a != [] && b != []
    ensures SmallerAt(a, b, k) <==> (k == 0 && a[0] < b[0]) || (a[0] == b[0] && SmallerAt(a[1..], b[1..], k - 1))
  {
    if 0 < k < |a| && k < |b| {
      assert a[..k] == [a[0]] + a[1..][..k - 1] && b[..k] == [b[0]] + b[1..][..k - 1];
    }
  }

  /** The order of dictionaries: at the first difference the smaller character, or a proper prefix. */
  lemma {:induction false} StringLessMeans(a: string, b: string)
    ensures StringLess(a, b) <==> a < b || exists k :: SmallerAt(a, b, k)
  {
    if a == [] || b == [] {
    } else {
      hide SmallerAt;
      var x, y := a[1..], b[1..];
      StringLessMeans(x, y);
      assert a == [a[0]] + x && b == [b[0]] + y;
      forall k ensures SmallerAt(a, b, k) <==> (k == 0 && a[0] < b[0]) || (a[0] == b[0] && SmallerAt(x, y, k - 1)) {
        SmallerLater(a, b, k);
      }
      if k :| SmallerAt(x, y, k) { assert a[0] == b[0] ==> SmallerAt(a, b, k + 1); }
      if a[0] < b[0] { assert SmallerAt(a, b, 0); }
    }
  }

  lemma BeatsIrreflexive(last: ServiceLog, a: Task)
    ensures !Beats(last, a, a)
  {
    StringLessIrreflexive(a.id);
  }

  lemma BeatsTransitive(last: ServiceLog, a: Task, b: Task, c: Task)
    requires Beats(last, a, b) && Beats(last, b, c)
    ensures Beats(last, a, c)
  {
    if StringLess(a.agentId, b.agentId) && StringLess(b.agentId, c.agentId) {
      StringLessTransitive(a.agentId, b.agentId, c.agentId);
      StringLessIrreflexive(a.agentId);
    }
    if StringLess(a.id, b.id) && StringLess(b.id, c.id) {
      StringLessTransitive(a.id, b.id, c.id);
    }
  }

  lemma BeatsTotal(last: ServiceLog, a: Task, b: Task)
    requires a != b
    ensures Beats(last, a, b) || Beats(last, b, a)
  {
    if a.agentId != b.agentId { StringLessTotal(a.agentId, b.agentId); }
    if a.id != b.id { StringLessTotal(a.id, b.id); }
  }

  /** The service order is a strict total order on task values, for every service history. */
  lemma BeatsIsStrictTotalOrder(last: ServiceLog)
    ensures forall a :: !Beats(last, a, a)
    ensures forall a, b, c :: Beats(last, a, b) && Beats(last, b, c) ==> Beats(last, a, c)
    ensures forall a, b :: a != b ==> (Beats(last, a, b) <==> !Beats(last, b, a))
  {
    forall a ensures !Beats(last, a, a) { BeatsIrreflexive(last, a); }
    forall a, b, c | Beats(last, a, b) && Beats(last, b, c) ensures Beats(last, a, c) {
      BeatsTransitive(last, a, b, c);
    }
    forall a, b | a != b ensures Beats(last, a, b) <==> !Beats(last, b, a) {
      BeatsTotal(last, a, b);
      if Beats(last, a, b) && Beats(last, b, a) {
        BeatsTransitive(last, a, b, a);
        BeatsIrreflexive(last, a);
      }
    }
  }

  /** `t` is waiting and goes before every other waiting task. */
  ghost predicate IsNext(last: ServiceLog, waiting: multiset<Task>, t: Task) {
    t in waiting && forall u :: u in waiting && u != t ==> Beats(last, t, u)
  }

  lemma NextIsUnique(last: ServiceLog, waiting: multiset<Task>, t: Task, u: Task)
    requires IsNext(last, waiting, t) && IsNext(last, waiting, u)
    ensures t == u
  {
    if t != u {
      BeatsTransitive(last, t, u, t);
      BeatsIrreflexive(last, t);
    }
  }
}
