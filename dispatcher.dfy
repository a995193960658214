/**
 * The mail dispatcher of the MX process, modelled sequentially: a sorted
 * snapshot of the active mailbox addresses, consulted by binary search and
 * replaced wholesale on refresh, and a first-in first-out queue of accepted
 * mail records handed to the database writer. Locks and worker threads become
 * nothing; the database query and insert become parameters.
 */
module Dispatch {
  import opened Common

  // ---------------------------------------------------------------------------
  // Ordinal string order

  /** Three-way ordinal comparison of two strings, character by character. */
  function Compare(a: string, b: string): (c: int)
    ensures -1 <= c <= 1
  {
    if |a| == 0 && |b| == 0 then 0
    else if |a| == 0 then -1
    else if |b| == 0 then 1
    else if a[0] < b[0] then -1
    else if a[0] > b[0] then 1
    else Compare(a[1..], b[1..])
  }

  lemma {:induction false} CompareZeroIffEqual(a: string, b: string)
    ensures Compare(a, b) == 0 <==> a == b
  {
    if |a| > 0 && |b| > 0 && a[0] == b[0] {
      CompareZeroIffEqual(a[1..], b[1..]);
      assert a == [a[0]] + a[1..] && b == [b[0]] + b[1..];
    }
  }

  lemma {:induction false} CompareAntisymmetric(a: string, b: string)
    ensures Compare(a, b) == -Compare(b, a)
  {
    if |a| > 0 && |b| > 0 && a[0] == b[0] {
      CompareAntisymmetric(a[1..], b[1..]);
    }
  }

  lemma {:induction false} CompareTransitive(a: string, b: string, c: string)
    requires Compare(a, b) <= 0 && Compare(b, c) <= 0
    ensures Compare(a, c) <= 0
  {
    if |a| > 0 && |b| > 0 && |c| > 0 && a[0] == b[0] == c[0] {
      CompareTransitive(a[1..], b[1..], c[1..]);
    }
  }

  /** Strict after non-strict is strict. */
  lemma CompareStrictTransitive(a: string, b: string, c: string)
    requires Compare(a, b) <= 0 && Compare(b, c) < 0
    ensures Compare(a, c) < 0
  {
    CompareTransitive(a, b, c);
    CompareZeroIffEqual(a, c);
    CompareAntisymmetric(b, c);
  }

  /** Non-strict after strict is strict. */
  lemma CompareTransitiveStrict(a: string, b: string, c: string)
    requires Compare(a, b) < 0 && Compare(b, c) <= 0
    ensures Compare(a, c) < 0
  {
    CompareTransitive(a, b, c);
    CompareZeroIffEqual(a, c);
    CompareAntisymmetric(a, b);
  }

  /** A list in ascending ordinal order, as the refresh query returns it. */
  predicate Sorted(list: seq<string>) {
    forall i, j :: 0 <= i < j < |list| ==> Compare(list[i], list[j]) <= 0
  }

  /**
   * `List<string>.BinarySearch`: the index of an element equal to `x`, or,
   * when there is none, the bitwise complement (-1 - p) of the position `p`
   * at which `x` would be inserted to keep the list sorted.
   */
  method BinarySearch(list: seq<string>, x: string) returns (r: int)
    requires Sorted(list)
    ensures 0 <= r ==> r < |list| && list[r] == x
    ensures r < 0 ==> x !in list
    ensures r < 0 ==> var p := -1 - r;
      0 <= p <= |list|
      && (forall i :: 0 <= i < p ==> Compare(list[i], x) < 0)
      && (forall i :: p <= i < |list| ==> Compare(list[i], x) > 0)
  {
    var lo, hi := 0, |list| - 1;
    while lo <= hi
      invariant 0 <= lo <= hi + 1 <= |list|
      invariant forall i :: 0 <= i < lo ==> Compare(list[i], x) < 0
      invariant forall i :: hi < i < |list| ==> Compare(list[i], x) > 0
      decreases hi - lo
    {
      var mid := lo + (hi - lo) / 2;
      var order := Compare(list[mid], x);
      if order == 0 {
        CompareZeroIffEqual(list[mid], x);
        return mid;
      } else if order < 0 {
        forall i | 0 <= i <= mid
          ensures Compare(list[i], x) < 0
        {
          if i < mid {
            CompareStrictTransitive(list[i], list[mid], x);
          }
        }
        lo := mid + 1;
      } else {
        forall i | mid <= i < |list|
          ensures Compare(list[i], x) > 0
        {
          if mid < i {
            CompareAntisymmetric(list[mid], x);
            CompareTransitiveStrict(x, list[mid], list[i]);
            CompareAntisymmetric(x, list[i]);
          }
        }
        hi := mid - 1;
      }
    }
    forall i | 0 <= i < |list|
      ensures list[i] != x
    {
      CompareZeroIffEqual(list[i], x);
    }
    return -1 - lo;
  }

  // ---------------------------------------------------------------------------
  // The dispatcher

  class MailDispatcher {
    /** The sorted snapshot of active mailbox addresses (`_activeMailBoxCache`). */
    var activeMailBoxCache: seq<string>
    /** The pending accepted-mail records (`_queue`), oldest first. */
    var queue: seq<IncomingMail>
    /** Whether the dispatcher and updater workers have been created. */
    var dispatcherCreated: bool
    var updaterCreated: bool

    /** Every record ever enqueued, every record ever taken off the queue, and those the insert stored. */
    ghost var enqueued: seq<IncomingMail>
    ghost var taken: seq<IncomingMail>
    ghost var persisted: seq<IncomingMail>
    /** How many worker threads of each kind were created. */
    ghost var dispatcherThreads: nat
    ghost var updaterThreads: nat

    ghost predicate Valid()
      reads this
    {
      && Sorted(activeMailBoxCache)
      && enqueued == taken + queue
      && dispatcherThreads == (if dispatcherCreated then 1 else 0)
      && updaterThreads == (if updaterCreated then 1 else 0)
    }

    constructor ()
      ensures Valid()
      ensures activeMailBoxCache == [] && queue == []
      ensures !dispatcherCreated && !updaterCreated
      ensures enqueued == [] && taken == [] && persisted == []
    {
      activeMailBoxCache := [];
      queue := [];
      dispatcherCreated, updaterCreated := false, false;
      enqueued, taken, persisted := [], [], [];
      dispatcherThreads, updaterThreads := 0, 0;
    }

    /** Creates each worker unless it already exists: however often it is called, one of each. */
    method Start()
      requires Valid()
      modifies this
      ensures Valid()
      ensures dispatcherCreated && updaterCreated
      ensures dispatcherThreads == 1 && updaterThreads == 1
      ensures activeMailBoxCache == old(activeMailBoxCache) && queue == old(queue)
      ensures enqueued == old(enqueued) && taken == old(taken) && persisted == old(persisted)
    {
      if !dispatcherCreated {
        dispatcherCreated := true;
        dispatcherThreads := dispatcherThreads + 1;
      }
      if !updaterCreated {
        updaterCreated := true;
        updaterThreads := updaterThreads + 1;
      }
    }

    method Enqueue(m: IncomingMail)
      requires Valid()
      modifies this
      ensures Valid()
      ensures queue == old(queue) + [m] && enqueued == old(enqueued) + [m]
      ensures activeMailBoxCache == old(activeMailBoxCache)
      ensures taken == old(taken) && persisted == old(persisted)
      ensures dispatcherCreated == old(dispatcherCreated) && updaterCreated == old(updaterCreated)
      ensures dispatcherThreads == old(dispatcherThreads) && updaterThreads == old(updaterThreads)
    {
      queue := queue + [m];
      enqueued := enqueued + [m];
    }

    method IsMailboxActive(recipient: string) returns (isActive: bool)
      requires Valid()
      ensures isActive <==> recipient in activeMailBoxCache
    {
      var index := BinarySearch(activeMailBoxCache, recipient);
      isActive := index > -1;
    }

    /**
     * One refresh of the cache: `fetched` is the list the query returned in
     * address order, or `None` when opening the connection or the query
     * failed, in which case the exception is swallowed before the swap.
     */
    method UpdateActiveMailBoxCache(fetched: Option<seq<string>>)
      requires Valid()
      requires fetched.Some? ==> Sorted(fetched.value)
      modifies this
      ensures Valid()
      ensures fetched.Some? ==> activeMailBoxCache == fetched.value
      ensures fetched.None? ==> activeMailBoxCache == old(activeMailBoxCache)
      ensures queue == old(queue)
      ensures enqueued == old(enqueued) && taken == old(taken) && persisted == old(persisted)
      ensures dispatcherCreated == old(dispatcherCreated) && updaterCreated == old(updaterCreated)
      ensures dispatcherThreads == old(dispatcherThreads) && updaterThreads == old(updaterThreads)
    {
      if fetched.Some? {
        activeMailBoxCache := fetched.value;
      }
    }

    /**
     * One turn of the dispatcher loop: `TryTake` removes the oldest record,
     * then the insert runs; `insertSucceeds` is false when it throws, and the
     * record taken is then not stored anywhere.
     */
    method DispatchNext(insertSucceeds: bool) returns (m: Option<IncomingMail>)
      requires Valid()
      modifies this
      ensures Valid()
      ensures old(queue) == [] ==> m.None? && queue == [] && taken == old(taken) && persisted == old(persisted)
      ensures old(queue) != [] ==>
        && m == Some(old(queue)[0])
        && queue == old(queue)[1..]
        && taken == old(taken) + [old(queue)[0]]
        && persisted == old(persisted) + (if insertSucceeds then [old(queue)[0]] else [])
      ensures enqueued == old(enqueued) && activeMailBoxCache == old(activeMailBoxCache)
      ensures dispatcherCreated == old(dispatcherCreated) && updaterCreated == old(updaterCreated)
      ensures dispatcherThreads == old(dispatcherThreads) && updaterThreads == old(updaterThreads)
    {
      if queue == [] {
        return None;
      }
      var head := queue[0];
      assert enqueued == (taken + [head]) + queue[1..];
      queue := queue[1..];
      taken := taken + [head];
      if insertSucceeds {
        persisted := persisted + [head];
      }
      m := Some(head);
    }
  }

  /**
   * The consumer sees records in the order they were enqueued: what has been
   * taken is a prefix of what was enqueued, so each record is taken once, and
   * the next record to be taken is the oldest one not yet taken.
   */
  lemma TakenInEnqueueOrder(enqueued: seq<IncomingMail>, taken: seq<IncomingMail>, queue: seq<IncomingMail>)
    requires enqueued == taken + queue
    ensures |taken| <= |enqueued| && taken == enqueued[..|taken|]
    ensures queue != [] ==> queue[0] == enqueued[|taken|]
  {
  }
}
