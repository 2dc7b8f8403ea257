/** What the pool's operations preserve, stated about `GetStep`, `ReturnStep`, `CleanTimeOut`
    and `CleanIdle`. `lent` counts, per host, the connections handed out and not yet returned. */
module PoolProperties {
  import opened Bytes
  import opened Text
  import opened Pool

  function Lent(lent: map<Key, nat>, k: Key): nat
  {
    if k in lent then lent[k] else 0
  }

  function Borrow(lent: map<Key, nat>, k: Key): map<Key, nat>
  {
    lent[k := Lent(lent, k) + 1]
  }

  function GiveBack(lent: map<Key, nat>, k: Key): map<Key, nat>
    requires Lent(lent, k) > 0
  {
    lent[k := Lent(lent, k) - 1]
  }

  /** The count of a host covers its idle connections and those handed out. */
  ghost predicate Accounted(s: PoolState, lent: map<Key, nat>)
  {
    forall k :: |Idle(s, k)| + Lent(lent, k) <= Count(s, k)
  }

  ghost predicate WithinCap(s: PoolState)
  {
    forall k :: Count(s, k) <= s.maxPerHost
  }

  /** Each queue holds connections to its own host that were connected when returned. */
  ghost predicate QueuesWellFormed(s: PoolState)
  {
    forall k, i :: k in s.idle && 0 <= i < |s.idle[k]| ==> s.idle[k][i].key == k && s.idle[k][i].connected
  }

  predicate Sorted(q: seq<Conn>)
  {
    forall i, j :: 0 <= i < j < |q| ==> q[i].lastUsed <= q[j].lastUsed
  }

  ghost predicate StampsSorted(s: PoolState)
  {
    forall k :: k in s.idle ==> Sorted(s.idle[k])
  }

  /** No queue entry is stamped later than `now`. */
  ghost predicate StampedBy(s: PoolState, now: int)
  {
    forall k, i :: k in s.idle && 0 <= i < |s.idle[k]| ==> s.idle[k][i].lastUsed <= now
  }

  ghost predicate Expired(c: Conn, now: int, maxIdle: int)
  {
    now - c.lastUsed >= maxIdle
  }

  /** The invariant the pool keeps. */
  ghost predicate PoolInvariant(s: PoolState, lent: map<Key, nat>)
  {
    Accounted(s, lent) && WithinCap(s) && QueuesWellFormed(s) && StampsSorted(s)
  }

  /** A new pool: no hosts, a five-minute timeout and ten connections per host. */
  lemma InitialPool()
    ensures var s := PoolState(map[], map[], DEFAULT_MAX_IDLE_TIME, DEFAULT_MAX_PER_HOST);
      PoolInvariant(s, map[]) && StampedBy(s, 0)
      && s.maxIdleTime == 300 && s.maxPerHost == 10
  {
  }

  // ---------------------------------------------------------------- keys

  lemma EqualKeysHashEqually(strHash: string -> bv64, a: Key, b: Key)
    requires KeyEquals(a, b)
    ensures KeyHash(strHash, a) == KeyHash(strHash, b)
  {
  }

  // ---------------------------------------------------------------- GetConnection

  /** With well-formed queues a non-empty queue hands out its oldest connection and opens
      nothing: first in, first out. */
  lemma GetReusesOldest(s: PoolState, key: Key, connectOk: bool, now: int)
    requires QueuesWellFormed(s) && Idle(s, key) != []
    ensures var (t, r) := GetStep(s, key, connectOk, now);
      r == Some(Idle(s, key)[0]) && Idle(t, key) == Idle(s, key)[1..] && t.count == s.count
  {
  }

  /** A dead connection at the front is dropped without decrementing the count, and the call
      goes on as if the queue had been empty. */
  lemma GetDiscardsDead(s: PoolState, key: Key, connectOk: bool, now: int)
    requires Idle(s, key) != [] && !Idle(s, key)[0].connected
    ensures var (t, r) := GetStep(s, key, connectOk, now);
      && Idle(t, key) == Idle(s, key)[1..]
      && (r.Some? <==> Count(s, key) < s.maxPerHost && connectOk)
      && (r.Some? ==> r.value == Conn(key, now, true) && Count(t, key) == Count(s, key) + 1)
      && (r.None? ==> Count(t, key) == Count(s, key))
  {
  }

  /** With no idle connection a new one is opened exactly when the host is below its cap and
      `Connect` succeeds; either way the host gets a count entry. */
  lemma GetOpens(s: PoolState, key: Key, connectOk: bool, now: int)
    requires Idle(s, key) == []
    ensures var (t, r) := GetStep(s, key, connectOk, now);
      && t.idle == s.idle && key in t.count
      && (r.Some? <==> Count(s, key) < s.maxPerHost && connectOk)
      && (r.Some? ==> r.value == Conn(key, now, true) && Count(t, key) == Count(s, key) + 1)
      && (r.None? ==> Count(t, key) == Count(s, key))
  {
  }

  /** Other hosts are untouched. */
  lemma GetOnlyTouchesKey(s: PoolState, key: Key, connectOk: bool, now: int)
    ensures var (t, r) := GetStep(s, key, connectOk, now);
      && t.maxIdleTime == s.maxIdleTime && t.maxPerHost == s.maxPerHost
      && forall j :: j != key ==> IdleEntry(t, j) == IdleEntry(s, j) && CountEntry(t, j) == CountEntry(s, j)
  {
  }

  lemma GetKeepsInvariant(s: PoolState, lent: map<Key, nat>, key: Key, connectOk: bool, now: int)
    requires PoolInvariant(s, lent) && StampedBy(s, now)
    ensures var (t, r) := GetStep(s, key, connectOk, now);
      && PoolInvariant(t, if r.Some? then Borrow(lent, key) else lent) && StampedBy(t, now)
      && (r.Some? ==> r.value.key == key && r.value.connected && r.value.lastUsed <= now)
  {
    var (t, r) := GetStep(s, key, connectOk, now);
    var lent' := if r.Some? then Borrow(lent, key) else lent;
    forall k ensures |Idle(t, k)| + Lent(lent', k) <= Count(t, k) && Count(t, k) <= t.maxPerHost {
      if k == key {
        assert |Idle(s, k)| + Lent(lent, k) <= Count(s, k) && Count(s, k) <= s.maxPerHost;
      } else {
        assert Idle(t, k) == Idle(s, k) && Count(t, k) == Count(s, k) && Lent(lent', k) == Lent(lent, k);
        assert |Idle(s, k)| + Lent(lent, k) <= Count(s, k) && Count(s, k) <= s.maxPerHost;
      }
    }
    forall k | k in t.idle ensures Sorted(t.idle[k]) {
      assert Sorted(s.idle[k]);
    }
  }

  // ---------------------------------------------------------------- ReturnConnection

  lemma ReturnNothing(s: PoolState, now: int)
    ensures ReturnStep(s, None, now) == s
  {
  }

  /** A live connection goes to the back of its host's queue stamped `now`; counts stay. */
  lemma ReturnLive(s: PoolState, c: Conn, now: int)
    requires c.connected
    ensures var t := ReturnStep(s, Some(c), now);
      && Idle(t, c.key) == Idle(s, c.key) + [c.(lastUsed := now)] && t.count == s.count
      && forall j :: j != c.key ==> IdleEntry(t, j) == IdleEntry(s, j)
  {
  }

  /** A dead connection gives back its slot; the host is forgotten when its count reaches zero,
      and a host without a count entry is left alone. */
  lemma ReturnDead(s: PoolState, c: Conn, now: int)
    requires !c.connected
    ensures var t := ReturnStep(s, Some(c), now);
      && (c.key in s.count && s.count[c.key] == 1 ==> c.key !in t.count && c.key !in t.idle)
      && (c.key in s.count && s.count[c.key] != 1 ==> t.count[c.key] == s.count[c.key] - 1 && t.idle == s.idle)
      && (c.key !in s.count ==> t == s)
      && forall j :: j != c.key ==> IdleEntry(t, j) == IdleEntry(s, j) && CountEntry(t, j) == CountEntry(s, j)
  {
  }

  /** A count entry disappears only when it is decremented to zero. */
  lemma ReturnErasesOnlyAtZero(s: PoolState, conn: Option<Conn>, now: int, k: Key)
    requires k in s.count && k !in ReturnStep(s, conn, now).count
    ensures conn.Some? && conn.value.key == k && !conn.value.connected && s.count[k] - 1 == 0
  {
  }

  /** Giving back a connection that was handed out keeps the invariant, provided the clock has
      not gone backwards. */
  lemma ReturnKeepsInvariant(s: PoolState, lent: map<Key, nat>, c: Conn, now: int)
    requires PoolInvariant(s, lent) && StampedBy(s, now) && Lent(lent, c.key) > 0
    ensures var t := ReturnStep(s, Some(c), now);
      PoolInvariant(t, GiveBack(lent, c.key)) && StampedBy(t, now)
  {
    var t := ReturnStep(s, Some(c), now);
    var lent' := GiveBack(lent, c.key);
    forall k ensures |Idle(t, k)| + Lent(lent', k) <= Count(t, k) && Count(t, k) <= t.maxPerHost {
      assert |Idle(s, k)| + Lent(lent, k) <= Count(s, k) && Count(s, k) <= s.maxPerHost;
    }
    if c.connected {
      var q := Idle(s, c.key);
      var q' := q + [c.(lastUsed := now)];
      assert Sorted(q') by {
        if c.key in s.idle {
          assert Sorted(s.idle[c.key]);
          assert forall i :: 0 <= i < |q| ==> q[i].lastUsed <= now;
        }
      }
      forall k | k in t.idle ensures Sorted(t.idle[k]) {
        if k != c.key {
          assert Sorted(s.idle[k]);
        }
      }
      forall k, i | k in t.idle && 0 <= i < |t.idle[k]|
        ensures t.idle[k][i].key == k && t.idle[k][i].connected && t.idle[k][i].lastUsed <= now
      {
        if k != c.key || i < |q| {
          assert k in s.idle && s.idle[k][i] == t.idle[k][i];
        }
      }
    } else {
      forall k | k in t.idle ensures Sorted(t.idle[k]) {
        assert Sorted(s.idle[k]);
      }
    }
  }

  // ---------------------------------------------------------------- CleanTimeOutConnections

  /** The timeout loop over one queue pops a prefix of expired connections; it stops at the
      first live one, or after the pop that brings the count to zero. */
  lemma {:induction false} CleanQueueFacts(q: seq<Conn>, c: int, now: int, maxIdle: int)
    decreases |q|
    ensures var r := CleanQueue(q, c, now, maxIdle);
      var p := |q| - |r.0|;
      && 0 <= p <= |q| && r.0 == q[p..]
      && (forall i :: 0 <= i < p ==> Expired(q[i], now, maxIdle))
      && (r.2 ==> p >= 1 && c - p == 0 && r.1 == 0)
      && (!r.2 ==> r.1 == c - p && (r.0 == [] || !Expired(r.0[0], now, maxIdle)))
  {
    if q != [] && Expired(q[0], now, maxIdle) && c - 1 != 0 {
      CleanQueueFacts(q[1..], c - 1, now, maxIdle);
      var r := CleanQueue(q[1..], c - 1, now, maxIdle);
      var p := |q[1..]| - |r.0|;
      assert q[1..][p..] == q[p + 1..];
      assert forall i :: 1 <= i < p + 1 ==> q[i] == q[1..][i - 1];
    }
  }

  /** In a sorted queue whose front has not expired, nothing has. */
  lemma SortedFrontLive(q: seq<Conn>, now: int, maxIdle: int)
    requires Sorted(q) && q != [] && !Expired(q[0], now, maxIdle)
    ensures forall i :: 0 <= i < |q| ==> !Expired(q[i], now, maxIdle)
  {
    assert forall i :: 0 <= i < |q| ==> q[0].lastUsed <= q[i].lastUsed;
  }

  lemma SuffixSorted(q: seq<Conn>, p: nat)
    requires Sorted(q) && p <= |q|
    ensures Sorted(q[p..])
  {
    assert forall i :: 0 <= i < |q| - p ==> q[p..][i] == q[p + i];
  }

  /** The effect on one host, in terms of the entries it loses: `p` expired connections are
      popped and the count goes down by `p`; the host is erased exactly when that reaches 0. */
  lemma CleanTimeOutHost(s: PoolState, now: int, k: Key)
    requires k in s.idle
    ensures var t := CleanTimeOut(s, now);
      var q := s.idle[k];
      var r := Cleaned(s, k, now);
      var p := |q| - |r.0|;
      && 0 <= p <= |q| && (forall i :: 0 <= i < p ==> Expired(q[i], now, s.maxIdleTime))
      && (r.2 ==> p >= 1 && Count(s, k) - p == 0 && k !in t.idle && k !in t.count)
      && (!r.2 ==> k in t.idle && t.idle[k] == q[p..] && Count(t, k) == Count(s, k) - p
                   && (t.idle[k] == [] || !Expired(t.idle[k][0], now, s.maxIdleTime)))
  {
    CleanQueueFacts(s.idle[k], Count(s, k), now, s.maxIdleTime);
    CleanTimeOutEntries(s, now);
    assert IdleEntry(CleanTimeOut(s, now), k) == IdleAfterClean(s, k, now);
    assert CountEntry(CleanTimeOut(s, now), k) == CountAfterClean(s, k, now);
  }

  /** Hosts without a queue keep their counts. */
  lemma CleanTimeOutOtherHosts(s: PoolState, now: int, k: Key)
    requires k !in s.idle
    ensures k !in CleanTimeOut(s, now).idle && CountEntry(CleanTimeOut(s, now), k) == CountEntry(s, k)
  {
    CleanTimeOutEntries(s, now);
    assert IdleEntry(CleanTimeOut(s, now), k) == IdleAfterClean(s, k, now);
  }

  /** A count entry disappears only when the pops bring it to exactly zero. */
  lemma CleanTimeOutErasesOnlyAtZero(s: PoolState, now: int, k: Key)
    requires k in s.count && k !in CleanTimeOut(s, now).count
    ensures k in s.idle && Count(s, k) == |s.idle[k]| - |Cleaned(s, k, now).0| && Count(s, k) >= 1
  {
    if k in s.idle {
      CleanTimeOutHost(s, now, k);
    } else {
      CleanTimeOutOtherHosts(s, now, k);
    }
  }

  /** When the counts are accounted for, the pass evicts only expired connections, even on the
      erase path; with sorted stamps every connection left has not expired. */
  lemma CleanTimeOutEvictsOnlyExpired(s: PoolState, lent: map<Key, nat>, now: int, k: Key)
    requires Accounted(s, lent) && StampsSorted(s) && k in s.idle
    ensures var q := s.idle[k];
      var rest := Idle(CleanTimeOut(s, now), k);
      && |rest| <= |q| && rest == q[|q| - |rest|..]
      && (forall i :: 0 <= i < |q| - |rest| ==> Expired(q[i], now, s.maxIdleTime))
      && (forall i :: 0 <= i < |rest| ==> !Expired(rest[i], now, s.maxIdleTime))
  {
    CleanTimeOutHost(s, now, k);
    var q := s.idle[k];
    var r := Cleaned(s, k, now);
    var p := |q| - |r.0|;
    assert |Idle(s, k)| + Lent(lent, k) <= Count(s, k);
    if !r.2 {
      var rest := CleanTimeOut(s, now).idle[k];
      if rest != [] {
        assert Sorted(q);
        SuffixSorted(q, p);
        SortedFrontLive(rest, now, s.maxIdleTime);
      }
    } else {
      assert q[|q|..] == [];
    }
  }

  lemma CleanTimeOutKeepsInvariant(s: PoolState, lent: map<Key, nat>, now: int, later: int)
    requires PoolInvariant(s, lent) && StampedBy(s, later)
    ensures var t := CleanTimeOut(s, now);
      PoolInvariant(t, lent) && StampedBy(t, later)
  {
    var t := CleanTimeOut(s, now);
    forall k ensures |Idle(t, k)| + Lent(lent, k) <= Count(t, k) && Count(t, k) <= t.maxPerHost {
      assert |Idle(s, k)| + Lent(lent, k) <= Count(s, k) && Count(s, k) <= s.maxPerHost;
      if k in s.idle {
        CleanTimeOutHost(s, now, k);
      } else {
        CleanTimeOutOtherHosts(s, now, k);
      }
    }
    forall k | k in t.idle
      ensures Sorted(t.idle[k])
      ensures forall i :: 0 <= i < |t.idle[k]| ==> t.idle[k][i].key == k && t.idle[k][i].connected && t.idle[k][i].lastUsed <= later
    {
      if k !in s.idle {
        CleanTimeOutOtherHosts(s, now, k);
      }
      CleanTimeOutHost(s, now, k);
      var q := s.idle[k];
      var p := |q| - |Cleaned(s, k, now).0|;
      assert Sorted(q);
      SuffixSorted(q, p);
      assert forall i :: 0 <= i < |q| - p ==> q[p..][i] == q[p + i];
    }
  }

  // ---------------------------------------------------------------- CleanIdleConnections

  /** Every queue is emptied and no count moves, so the counts afterwards overstate the open
      connections by the number dropped. */
  lemma CleanIdleEmpties(s: PoolState)
    ensures var t := CleanIdle(s);
      && t.idle.Keys == s.idle.Keys && t.count == s.count
      && (forall k :: Idle(t, k) == [])
      && (forall k :: Count(t, k) - |Idle(t, k)| == Count(s, k))
  {
  }

  lemma CleanIdleKeepsInvariant(s: PoolState, lent: map<Key, nat>, now: int)
    requires PoolInvariant(s, lent) && StampedBy(s, now)
    ensures PoolInvariant(CleanIdle(s), lent) && StampedBy(CleanIdle(s), now)
  {
    var t := CleanIdle(s);
    forall k ensures |Idle(t, k)| + Lent(lent, k) <= Count(t, k) {
      assert |Idle(s, k)| + Lent(lent, k) <= Count(s, k);
    }
  }

  // ---------------------------------------------------------------- scenarios

  /** A connection handed out, returned alive and asked for again is the same connection, now
      stamped with the time it was returned. */
  lemma ReturnThenGet(s: PoolState, lent: map<Key, nat>, key: Key, t1: int, t2: int, t3: int)
    requires PoolInvariant(s, lent) && StampedBy(s, t1) && Idle(s, key) == []
    requires Count(s, key) < s.maxPerHost
    requires t1 <= t2
    ensures var (s1, r1) := GetStep(s, key, true, t1);
      var s2 := ReturnStep(s1, r1, t2);
      var (s3, r3) := GetStep(s2, key, false, t3);
      r1 == Some(Conn(key, t1, true)) && r3 == Some(Conn(key, t2, true)) && s3.count == s1.count
  {
    var (s1, r1) := GetStep(s, key, true, t1);
    GetOpens(s, key, true, t1);
    GetKeepsInvariant(s, lent, key, true, t1);
    ReturnLive(s1, r1.value, t2);
    var s2 := ReturnStep(s1, r1, t2);
    assert Idle(s2, key) == [Conn(key, t2, true)];
  }
}
