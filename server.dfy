/**
 * `SmtpServer`'s bookkeeping of live sessions: the periodic sweep that drops
 * finished sessions and aborts those that lived too long, the removal a
 * session asks for when it terminates, and the registration of an accepted
 * connection. Each session is seen through what the sweep reads of it: its
 * identity, `IsAlive` and `LifeTime` (ticks since it was created, which the
 * source reads from the clock).
 */
module Server {
  import Smtp

  datatype SessionEntry = SessionEntry(id: nat, alive: bool, lifeTime: int)

  /** A session the sweep keeps: alive and not older than the maximum lifetime. */
  predicate Kept(e: SessionEntry) {
    e.alive && e.lifeTime <= Smtp.MaximumLifeTime
  }

  /** A session the sweep aborts: alive but older than the maximum lifetime. */
  predicate Expired(e: SessionEntry) {
    e.alive && e.lifeTime > Smtp.MaximumLifeTime
  }

  function KeptOf(s: seq<SessionEntry>): (r: seq<SessionEntry>)
    ensures |r| <= |s|
  {
    if s == [] then [] else (if Kept(s[0]) then [s[0]] else []) + KeptOf(s[1..])
  }

  function ExpiredOf(s: seq<SessionEntry>): (r: seq<SessionEntry>)
    ensures |r| <= |s|
  {
    if s == [] then [] else (if Expired(s[0]) then [s[0]] else []) + ExpiredOf(s[1..])
  }

  function DeadOf(s: seq<SessionEntry>): (r: seq<SessionEntry>)
    ensures |r| <= |s|
  {
    if s == [] then [] else (if !s[0].alive then [s[0]] else []) + DeadOf(s[1..])
  }

  function Reverse<T>(s: seq<T>): (r: seq<T>)
    ensures |r| == |s|
  {
    if s == [] then [] else Reverse(s[1..]) + [s[0]]
  }

  function Ids(s: seq<SessionEntry>): (r: seq<nat>)
    ensures |r| == |s|
  {
    seq(|s|, i requires 0 <= i < |s| => s[i].id)
  }

  predicate DistinctIds(s: seq<SessionEntry>) {
    forall i, j :: 0 <= i < j < |s| ==> s[i].id != s[j].id
  }

  /** The position of the first session with identity `id`, if any (`List.IndexOf`). */
  function IndexOfId(s: seq<SessionEntry>, id: nat): (r: int)
    ensures -1 <= r < |s|
    ensures r >= 0 ==> s[r].id == id && forall j :: 0 <= j < r ==> s[j].id != id
    ensures r == -1 ==> forall j :: 0 <= j < |s| ==> s[j].id != id
  {
    if s == [] then -1
    else if s[0].id == id then 0
    else var r := IndexOfId(s[1..], id); if r == -1 then -1 else r + 1
  }

  /** `List.Remove`: drop the first session with identity `id`; nothing when there is none. */
  function RemoveFirst(s: seq<SessionEntry>, id: nat): (r: seq<SessionEntry>)
    ensures id in Ids(s) ==> |r| == |s| - 1
    ensures id !in Ids(s) ==> r == s
  {
    var k := IndexOfId(s, id);
    if k == -1 then s
    else
      assert Ids(s)[k] == id;
      s[..k] + s[k + 1..]
  }

  /**
   * Removing a registered session takes out its first registration and
   * keeps every other session, in order.
   */
  lemma RemoveFirstSpec(s: seq<SessionEntry>, id: nat, k: nat)
    requires k < |s| && s[k].id == id
    requires forall j :: 0 <= j < k ==> s[j].id != id
    ensures RemoveFirst(s, id) == s[..k] + s[k + 1..]
    ensures multiset(RemoveFirst(s, id)) + multiset{s[k]} == multiset(s)
  {
    IndexOfIdIsFirst(s, id, k);
    assert s == s[..k] + [s[k]] + s[k + 1..];
  }

  /**
   * Every session lands in exactly one of the three outcomes of a sweep:
   * kept, aborted or dropped as already finished.
   */
  lemma {:induction false} SweepPartitions(s: seq<SessionEntry>)
    ensures multiset(KeptOf(s)) + multiset(ExpiredOf(s)) + multiset(DeadOf(s)) == multiset(s)
  {
    if s != [] {
      var h, t := s[0], s[1..];
      SweepPartitions(t);
      assert multiset(s) == multiset{h} + multiset(t) by { assert s == [h] + t; }
      assert KeptOf(s) == (if Kept(h) then [h] else []) + KeptOf(t);
      assert ExpiredOf(s) == (if Expired(h) then [h] else []) + ExpiredOf(t);
      assert DeadOf(s) == (if !h.alive then [h] else []) + DeadOf(t);
      hide KeptOf, ExpiredOf, DeadOf;
      if !h.alive {
        assert multiset(DeadOf(s)) == multiset{h} + multiset(DeadOf(t));
      } else if Kept(h) {
        assert multiset(KeptOf(s)) == multiset{h} + multiset(KeptOf(t));
      } else {
        assert multiset(ExpiredOf(s)) == multiset{h} + multiset(ExpiredOf(t));
      }
    }
  }

  /** A session is kept exactly when it is in the list, alive and young enough. */
  lemma {:induction false} KeptOfSpec(s: seq<SessionEntry>, e: SessionEntry)
    ensures e in KeptOf(s) <==> e in s && Kept(e)
  {
    if s != [] {
      KeptOfSpec(s[1..], e);
      assert e in s <==> e == s[0] || e in s[1..];
    }
  }

  /** A session is aborted exactly when it is in the list, alive and too old. */
  lemma {:induction false} ExpiredOfSpec(s: seq<SessionEntry>, e: SessionEntry)
    ensures e in ExpiredOf(s) <==> e in s && Expired(e)
  {
    if s != [] {
      ExpiredOfSpec(s[1..], e);
      assert e in s <==> e == s[0] || e in s[1..];
    }
  }

  /** Reversing twice gives back the original order. */
  lemma {:induction false} ReverseReverse<T>(s: seq<T>)
    ensures Reverse(Reverse(s)) == s
  {
    if s != [] {
      ReverseReverse(s[1..]);
      ReverseAppend(Reverse(s[1..]), [s[0]]);
      assert [s[0]] + s[1..] == s;
    }
  }

  lemma {:induction false} ReverseAppend<T>(a: seq<T>, b: seq<T>)
    ensures Reverse(a + b) == Reverse(b) + Reverse(a)
  {
    if a == [] {
      assert a + b == b;
    } else {
      ReverseAppend(a[1..], b);
      assert (a + b)[1..] == a[1..] + b;
    }
  }

  /** Keeping the finished sessions out never changes who is kept: the sweep is idempotent. */
  lemma {:induction false} KeptOfIdempotent(s: seq<SessionEntry>)
    ensures KeptOf(KeptOf(s)) == KeptOf(s)
    ensures ExpiredOf(KeptOf(s)) == [] && DeadOf(KeptOf(s)) == []
  {
    if s != [] {
      KeptOfIdempotent(s[1..]);
      var r := KeptOf(s);
      if Kept(s[0]) {
        assert r[0] == s[0] && r[1..] == KeptOf(s[1..]);
      } else {
        assert r == KeptOf(s[1..]);
      }
    }
  }

  /** A sublist of a list whose identities are distinct has distinct identities, too. */
  lemma {:induction false} KeptOfDistinct(s: seq<SessionEntry>)
    requires DistinctIds(s)
    ensures DistinctIds(KeptOf(s))
    ensures forall e :: e in KeptOf(s) ==> e in s
  {
    if s != [] {
      KeptOfDistinct(s[1..]);
      forall e | e in KeptOf(s)
        ensures e in s
      {
        assert e in s <==> e == s[0] || e in s[1..];
      }
      if Kept(s[0]) {
        var r := KeptOf(s);
        forall i, j | 0 <= i < j < |r|
          ensures r[i].id != r[j].id
        {
          if i == 0 {
            assert r[j] in s[1..];
          } else {
            assert r[i] == KeptOf(s[1..])[i - 1];
          }
        }
      }
    }
  }

  class SmtpServer {
    /** `_activeSessions`, in registration order. */
    var activeSessions: seq<SessionEntry>
    /** The identities of the sessions the server has aborted, in the order it aborted them. */
    ghost var aborted: seq<nat>

    /** Distinct sessions are distinct objects: no identity is registered twice. */
    ghost predicate Valid()
      reads this
    {
      DistinctIds(activeSessions)
    }

    constructor ()
      ensures Valid()
      ensures activeSessions == [] && aborted == []
    {
      activeSessions := [];
      aborted := [];
    }

    /**
     * The part of a round of the loop in `Run` done under the lock: walking
     * the list from its end, remove each finished session and each session
     * older than the maximum lifetime, collecting the latter in the order
     * met, so last registered first.
     */
    method RemoveStale() returns (abort: seq<SessionEntry>)
      requires Valid()
      modifies this`activeSessions
      ensures Valid()
      ensures activeSessions == KeptOf(old(activeSessions))
      ensures abort == Reverse(ExpiredOf(old(activeSessions)))
    {
      ghost var all := activeSessions;
      abort := [];
      var i := |activeSessions| - 1;
      while i >= 0
        invariant -1 <= i < |all|
        invariant activeSessions == all[..i + 1] + KeptOf(all[i + 1..])
        invariant abort == Reverse(ExpiredOf(all[i + 1..]))
      {
        SweepStep(all, i);
        assert activeSessions[i] == all[i];
        var session := activeSessions[i];
        if !session.alive {
          activeSessions := activeSessions[..i] + activeSessions[i + 1..];
        } else if session.lifeTime > Smtp.MaximumLifeTime {
          activeSessions := activeSessions[..i] + activeSessions[i + 1..];
          abort := abort + [session];
        }
        assert all[..i + 1][..i] == all[..i];
        i := i - 1;
      }
      assert all[0..] == all;
      KeptOfDistinct(all);
    }

    /**
     * One round of the loop in `Run`: remove the stale sessions, then abort
     * the collected ones. Aborting a session tells the server it terminated,
     * which no longer finds it in the list.
     */
    method Sweep()
      requires Valid()
      modifies this
      ensures Valid()
      ensures activeSessions == KeptOf(old(activeSessions))
      ensures aborted == old(aborted) + Ids(Reverse(ExpiredOf(old(activeSessions))))
    {
      ghost var all := activeSessions;
      var abort := RemoveStale();
      forall k | 0 <= k < |abort|
        ensures abort[k].id !in Ids(activeSessions)
      {
        AbortedNotKept(all, abort, k);
      }
      AbortCollected(abort);
    }

    /**
     * The second half of a round of `Run`: abort each collected session in
     * turn. None of them is registered any more, so the notification each
     * abort sends leaves the list as it is.
     */
    method AbortCollected(abort: seq<SessionEntry>)
      requires Valid()
      requires forall k :: 0 <= k < |abort| ==> abort[k].id !in Ids(activeSessions)
      modifies this`activeSessions, this`aborted
      ensures activeSessions == old(activeSessions) && Valid()
      ensures aborted == old(aborted) + Ids(abort)
    {
      hide RemoveFirst;
      for k := 0 to |abort|
        invariant Valid() && activeSessions == old(activeSessions)
        invariant aborted == old(aborted) + Ids(abort[..k])
      {
        aborted := aborted + [abort[k].id];
        NotifyTerminatedSession(abort[k].id);
        IdsOfLonger(abort, k);
      }
      assert abort[..|abort|] == abort;
    }

    /** `NotifyTerminatedSession`: remove the first registration of the session, if any. */
    method NotifyTerminatedSession(id: nat)
      requires Valid()
      modifies this`activeSessions
      ensures Valid()
      ensures activeSessions == RemoveFirst(old(activeSessions), id)
    {
      var k := 0;
      while k < |activeSessions| && activeSessions[k].id != id
        invariant 0 <= k <= |activeSessions|
        invariant forall j :: 0 <= j < k ==> activeSessions[j].id != id
      {
        k := k + 1;
      }
      if k < |activeSessions| {
        assert IndexOfId(activeSessions, id) == k by { IndexOfIdIsFirst(activeSessions, id, k); }
        activeSessions := activeSessions[..k] + activeSessions[k + 1..];
      } else {
        assert IndexOfId(activeSessions, id) == -1;
      }
    }

    /** `AcceptCompleted`: a successfully accepted connection registers a new, live session. */
    method AcceptCompleted(success: bool, newId: nat)
      requires Valid()
      requires newId !in Ids(activeSessions)
      modifies this`activeSessions
      ensures Valid()
      ensures activeSessions == old(activeSessions) + (if success then [SessionEntry(newId, true, 0)] else [])
    {
      if success {
        forall i | 0 <= i < |activeSessions|
          ensures activeSessions[i].id != newId
        {
          assert Ids(activeSessions)[i] == activeSessions[i].id;
        }
        activeSessions := activeSessions + [SessionEntry(newId, true, 0)];
      }
    }
  }

  lemma IdsOfLonger(s: seq<SessionEntry>, k: nat)
    requires k < |s|
    ensures Ids(s[..k + 1]) == Ids(s[..k]) + [s[k].id]
  {
  }

  /** A session the sweep collected for abort is no longer among the kept ones. */
  lemma AbortedNotKept(all: seq<SessionEntry>, abort: seq<SessionEntry>, k: nat)
    requires DistinctIds(all) && abort == Reverse(ExpiredOf(all)) && k < |abort|
    ensures abort[k].id !in Ids(KeptOf(all))
  {
    assert abort[k] in ExpiredOf(all) by {
      ReverseHasSame(ExpiredOf(all), abort[k]);
    }
    ExpiredOfSpec(all, abort[k]);
    AbortedIsGone(all, abort[k]);
  }

  /** Walking one session further towards the front of the list. */
  lemma SweepStep(all: seq<SessionEntry>, i: nat)
    requires i < |all|
    ensures KeptOf(all[i..]) == (if Kept(all[i]) then [all[i]] else []) + KeptOf(all[i + 1..])
    ensures Reverse(ExpiredOf(all[i..])) == Reverse(ExpiredOf(all[i + 1..])) + (if Expired(all[i]) then [all[i]] else [])
  {
    assert all[i..][1..] == all[i + 1..];
    var x := if Expired(all[i]) then [all[i]] else [];
    ReverseAppend(x, ExpiredOf(all[i + 1..]));
  }

  lemma ReverseHasSame<T>(s: seq<T>, x: T)
    ensures x in Reverse(s) <==> x in s
  {
    ReverseMultiset(s);
    assert x in s <==> x in multiset(s);
    assert x in Reverse(s) <==> x in multiset(Reverse(s));
  }

  lemma {:induction false} ReverseMultiset<T>(s: seq<T>)
    ensures multiset(Reverse(s)) == multiset(s)
  {
    if s != [] {
      ReverseMultiset(s[1..]);
      assert s == [s[0]] + s[1..];
    }
  }

  /** A session the sweep aborts is no longer in the list the sweep keeps. */
  lemma AbortedIsGone(all: seq<SessionEntry>, e: SessionEntry)
    requires DistinctIds(all) && e in all && Expired(e)
    ensures e.id !in Ids(KeptOf(all))
  {
    KeptOfDistinct(all);
    var kept := KeptOf(all);
    var a :| 0 <= a < |all| && all[a] == e;
    forall k | 0 <= k < |kept|
      ensures Ids(kept)[k] != e.id
    {
      KeptOfSpec(all, kept[k]);
      var b :| 0 <= b < |all| && all[b] == kept[k];
      assert a != b;
    }
  }

  /** An index with the identity and none before it is what `IndexOfId` finds. */
  lemma {:induction false} IndexOfIdIsFirst(s: seq<SessionEntry>, id: nat, k: nat)
    requires k < |s| && s[k].id == id
    requires forall j :: 0 <= j < k ==> s[j].id != id
    ensures IndexOfId(s, id) == k
  {
    if k > 0 {
      IndexOfIdIsFirst(s[1..], id, k - 1);
    }
  }
}
