/** `RPCConnectionsPool`: per host, a FIFO queue of idle connections and a count of the
    connections the pool has opened and not yet seen die, with a per-host cap and an idle
    timeout. Time is whole seconds on a steady clock, passed in as `now`. The pool's queue
    entries are values; whether a new connection's `Connect()` succeeded is a parameter. */
module Pool {
  import opened Bytes
  import opened Text

  /** `ConnectionKey`. */
  datatype Key = Key(ip: string, port: uint16)

  /** A pooled `RPCConnection` as the pool sees it: its host, when it was last returned, and
      what `IsConnected()` answers. */
  datatype Conn = Conn(key: Key, lastUsed: int, connected: bool)

  /** `m_idleConnection`, `m_connectionCount`, `m_maxIdleTime`, `m_maxConnectionsPerHost`. */
  datatype PoolState = PoolState(idle: map<Key, seq<Conn>>, count: map<Key, int>, maxIdleTime: int, maxPerHost: int)

  const DEFAULT_MAX_IDLE_TIME: int := 300
  const DEFAULT_MAX_PER_HOST: int := 10

  /** `ConnectionKey::operator==`: field by field, which is the equality of the datatype. */
  function KeyEquals(a: Key, b: Key): (r: bool)
    ensures r <==> a == b
  {
    a.ip == b.ip && a.port == b.port
  }

  /** `KeyHash`: `std::hash<std::string>` is a parameter; `std::hash<uint16_t>` is the identity
      (as in libstdc++), and `size_t` has 64 bits. */
  function KeyHash(strHash: string -> bv64, k: Key): bv64
  {
    strHash(k.ip) ^ ((k.port as bv64) << 1)
  }

  /** The queue of a key, empty when it has no entry. */
  function Idle(s: PoolState, k: Key): seq<Conn>
  {
    if k in s.idle then s.idle[k] else []
  }

  /** The count of a key as `operator[]` reads it: 0 when it has no entry. */
  function Count(s: PoolState, k: Key): int
  {
    if k in s.count then s.count[k] else 0
  }

  function IdleEntry(s: PoolState, k: Key): Option<seq<Conn>>
  {
    if k in s.idle then Some(s.idle[k]) else None
  }

  function CountEntry(s: PoolState, k: Key): Option<int>
  {
    if k in s.count then Some(s.count[k]) else None
  }

  /** Two states with the same entries under every key and the same limits are equal. */
  lemma SameEntries(s: PoolState, t: PoolState)
    requires s.maxIdleTime == t.maxIdleTime && s.maxPerHost == t.maxPerHost
    requires forall k :: IdleEntry(s, k) == IdleEntry(t, k)
    requires forall k :: CountEntry(s, k) == CountEntry(t, k)
    ensures s == t
  {
    assert forall k :: k in s.idle <==> IdleEntry(s, k).Some?;
    assert forall k :: k in s.idle ==> s.idle[k] == IdleEntry(t, k).value;
    assert forall k :: k in s.count ==> s.count[k] == CountEntry(t, k).value;
    assert s.idle == t.idle by {
      assert forall k :: k in s.idle <==> k in t.idle by {
        forall k ensures k in s.idle <==> k in t.idle {
          assert IdleEntry(s, k) == IdleEntry(t, k);
        }
      }
      forall k | k in s.idle ensures s.idle[k] == t.idle[k] {
        assert IdleEntry(s, k) == IdleEntry(t, k);
      }
    }
    assert s.count == t.count by {
      assert forall k :: k in s.count <==> k in t.count by {
        forall k ensures k in s.count <==> k in t.count {
          assert CountEntry(s, k) == CountEntry(t, k);
        }
      }
      forall k | k in s.count ensures s.count[k] == t.count[k] {
        assert CountEntry(s, k) == CountEntry(t, k);
      }
    }
  }

  /** States that agree outside `k` have the same entries under every other key. */
  lemma AgreeOutside(s: PoolState, t: PoolState, k: Key)
    requires s.idle - {k} == t.idle - {k} && s.count - {k} == t.count - {k}
    ensures forall j :: j != k ==> IdleEntry(s, j) == IdleEntry(t, j) && CountEntry(s, j) == CountEntry(t, j)
  {
    forall j | j != k
      ensures IdleEntry(s, j) == IdleEntry(t, j) && CountEntry(s, j) == CountEntry(t, j)
    {
      assert j in s.idle <==> j in s.idle - {k};
      assert j in t.idle <==> j in t.idle - {k};
      assert j in s.count <==> j in s.count - {k};
      assert j in t.count <==> j in t.count - {k};
      if j in s.idle {
        assert s.idle[j] == (s.idle - {k})[j];
      }
      if j in t.idle {
        assert t.idle[j] == (t.idle - {k})[j];
      }
      if j in s.count {
        assert s.count[j] == (s.count - {k})[j];
      }
      if j in t.count {
        assert t.count[j] == (t.count - {k})[j];
      }
    }
  }

  /** `GetConnection(ip, port)`: the new state and the connection handed out (None for
      `nullptr`). */
  function GetStep(s: PoolState, key: Key, connectOk: bool, now: int): (PoolState, Option<Conn>)
  {
    var popped := if key in s.idle && s.idle[key] != [] then Some(s.idle[key][0]) else None;
    var s1 := if popped.Some? then s.(idle := s.idle[key := s.idle[key][1..]]) else s;
    if popped.Some? && popped.value.connected then (s1, popped)
    else
      var c := Count(s1, key);
      var s2 := s1.(count := s1.count[key := c]);
      if c >= s.maxPerHost then (s2, None)
      else if connectOk then (s2.(count := s2.count[key := c + 1]), Some(Conn(key, now, true)))
      else (s2, None)
  }

  /** `ReturnConnection(pConn)`, with `None` for `nullptr`. */
  function ReturnStep(s: PoolState, conn: Option<Conn>, now: int): PoolState
  {
    match conn
    case None => s
    case Some(c) =>
      if c.connected then s.(idle := s.idle[c.key := Idle(s, c.key) + [c.(lastUsed := now)]])
      else if c.key in s.count then
        var n := s.count[c.key] - 1;
        if n == 0 then s.(count := s.count - {c.key}, idle := s.idle - {c.key})
        else s.(count := s.count[c.key := n])
      else s
  }

  /** The timeout loop over one queue whose count is `c`: the queue left, the count left, and
      whether the count reached zero and the key was erased. */
  function CleanQueue(q: seq<Conn>, c: int, now: int, maxIdle: int): (seq<Conn>, int, bool)
    decreases |q|
  {
    if q == [] then (q, c, false)
    else if now - q[0].lastUsed >= maxIdle then
      if c - 1 == 0 then (q[1..], 0, true)
      else CleanQueue(q[1..], c - 1, now, maxIdle)
    else (q, c, false)
  }

  function Cleaned(s: PoolState, k: Key, now: int): (seq<Conn>, int, bool)
    requires k in s.idle
  {
    CleanQueue(s.idle[k], Count(s, k), now, s.maxIdleTime)
  }

  /** The queue entry of `k` after the timeout pass. */
  function IdleAfterClean(s: PoolState, k: Key, now: int): Option<seq<Conn>>
  {
    if k !in s.idle then None
    else if Cleaned(s, k, now).2 then None
    else Some(Cleaned(s, k, now).0)
  }

  /** The count entry of `k` after the timeout pass: `operator[]` creates one for a key whose
      queue lost an entry, and an erase removes it. */
  function CountAfterClean(s: PoolState, k: Key, now: int): Option<int>
  {
    if k !in s.idle then CountEntry(s, k)
    else if Cleaned(s, k, now).2 then None
    else if k in s.count || |Cleaned(s, k, now).0| < |s.idle[k]| then Some(Cleaned(s, k, now).1)
    else None
  }

  /** `CleanTimeOutConnections()`: every queue is cleaned from the front. */
  function CleanTimeOut(s: PoolState, now: int): PoolState
  {
    s.(idle := map k | k in s.idle && IdleAfterClean(s, k, now).Some? :: IdleAfterClean(s, k, now).value,
       count := map k | k in s.count.Keys + s.idle.Keys && CountAfterClean(s, k, now).Some? :: CountAfterClean(s, k, now).value)
  }

  lemma CleanTimeOutEntries(s: PoolState, now: int)
    ensures forall k :: IdleEntry(CleanTimeOut(s, now), k) == IdleAfterClean(s, k, now)
    ensures forall k :: CountEntry(CleanTimeOut(s, now), k) == CountAfterClean(s, k, now)
  {
  }

  /** `CleanIdleConnections()`: every queue is emptied, the counts stay. */
  function CleanIdle(s: PoolState): PoolState
  {
    s.(idle := map k | k in s.idle :: [])
  }

  class ConnectionsPool {
    var idle: map<Key, seq<Conn>>
    var count: map<Key, int>
    var maxIdleTime: int
    var maxConnectionsPerHost: int
    var stopCleaner: bool

    function State(): PoolState
      reads this
    {
      PoolState(idle, count, maxIdleTime, maxConnectionsPerHost)
    }

    constructor ()
      ensures State() == PoolState(map[], map[], DEFAULT_MAX_IDLE_TIME, DEFAULT_MAX_PER_HOST)
      ensures !stopCleaner
    {
      idle, count := map[], map[];
      maxIdleTime, maxConnectionsPerHost := 300, 10;
      stopCleaner := false;
    }

    method SetMaxIdleTime(seconds: int)
      modifies this
      ensures State() == old(State()).(maxIdleTime := seconds)
      ensures stopCleaner == old(stopCleaner)
    {
      maxIdleTime := seconds;
    }

    method SetMaxConnectionsPerHost(n: int)
      modifies this
      ensures State() == old(State()).(maxPerHost := n)
      ensures stopCleaner == old(stopCleaner)
    {
      maxConnectionsPerHost := n;
    }

    method GetConnection(ip: string, port: uint16, connectOk: bool, now: int) returns (conn: Option<Conn>)
      modifies this
      ensures (State(), conn) == GetStep(old(State()), Key(ip, port), connectOk, now)
      ensures stopCleaner == old(stopCleaner)
    {
      var key := Key(ip, port);
      if key in idle && idle[key] != [] {
        var pConn := idle[key][0];
        idle := idle[key := idle[key][1..]];
        if pConn.connected {
          return Some(pConn);
        }
      }
      var c := if key in count then count[key] else 0;
      count := count[key := c];
      if c >= maxConnectionsPerHost {
        return None;
      }
      if connectOk {
        count := count[key := c + 1];
        return Some(Conn(key, now, true));
      }
      return None;
    }

    method ReturnConnection(conn: Option<Conn>, now: int)
      modifies this
      ensures State() == ReturnStep(old(State()), conn, now)
      ensures stopCleaner == old(stopCleaner)
    {
      if conn.None? {
        return;
      }
      var pConn := conn.value;
      var key := pConn.key;
      if pConn.connected {
        var q := if key in idle then idle[key] else [];
        idle := idle[key := q + [pConn.(lastUsed := now)]];
      } else if key in count {
        count := count[key := count[key] - 1];
        if count[key] == 0 {
          count := count - {key};
          idle := idle - {key};
        }
      }
    }

    /** The inner loop of `CleanTimeOutConnections` for one key. Where the source erases the
        entry it is iterating over, the model leaves that key. */
    method CleanKey(k: Key, now: int)
      requires k in idle
      modifies this
      ensures IdleEntry(State(), k) == IdleAfterClean(old(State()), k, now)
      ensures CountEntry(State(), k) == CountAfterClean(old(State()), k, now)
      ensures idle - {k} == old(idle) - {k} && count - {k} == old(count) - {k}
      ensures maxIdleTime == old(maxIdleTime) && maxConnectionsPerHost == old(maxConnectionsPerHost)
      ensures stopCleaner == old(stopCleaner)
    {
      ghost var q0 := idle[k];
      ghost var r := CleanQueue(q0, Count(State(), k), now, maxIdleTime);
      var erased := false;
      while !erased && idle[k] != []
        invariant maxIdleTime == old(maxIdleTime) && maxConnectionsPerHost == old(maxConnectionsPerHost)
        invariant stopCleaner == old(stopCleaner)
        invariant idle - {k} == old(idle) - {k} && count - {k} == old(count) - {k}
        invariant !erased ==> k in idle && CleanQueue(idle[k], Count(State(), k), now, maxIdleTime) == r
        invariant !erased ==> (k in count <==> k in old(count) || |idle[k]| < |q0|)
        invariant !erased ==> |idle[k]| <= |q0|
        invariant erased ==> r.2 && k !in idle && k !in count
        decreases !erased, if k in idle then |idle[k]| else 0
      {
        if now - idle[k][0].lastUsed >= maxIdleTime {
          idle := idle[k := idle[k][1..]];
          var c := (if k in count then count[k] else 0) - 1;
          count := count[k := c];
          if c == 0 {
            count := count - {k};
            idle := idle - {k};
            erased := true;
          }
        } else {
          break;
        }
      }
    }

    method CleanTimeOutConnections(now: int)
      modifies this
      ensures State() == CleanTimeOut(old(State()), now)
      ensures stopCleaner == old(stopCleaner)
    {
      ghost var s0 := State();
      var keys := idle.Keys;
      while keys != {}
        invariant keys <= s0.idle.Keys
        invariant maxIdleTime == s0.maxIdleTime && maxConnectionsPerHost == s0.maxPerHost
        invariant stopCleaner == old(stopCleaner)
        invariant forall k :: k in keys ==> IdleEntry(State(), k) == IdleEntry(s0, k)
        invariant forall k :: k in keys ==> CountEntry(State(), k) == CountEntry(s0, k)
        invariant forall k :: k !in keys ==> IdleEntry(State(), k) == IdleAfterClean(s0, k, now)
        invariant forall k :: k !in keys ==> CountEntry(State(), k) == CountAfterClean(s0, k, now)
        decreases keys
      {
        var k :| k in keys;
        ghost var before := State();
        assert IdleEntry(before, k) == IdleEntry(s0, k);
        CleanKey(k, now);
        AgreeOutside(State(), before, k);
        keys := keys - {k};
      }
      CleanTimeOutEntries(s0, now);
      SameEntries(State(), CleanTimeOut(s0, now));
    }

    method CleanIdleConnections()
      modifies this
      ensures State() == CleanIdle(old(State()))
      ensures stopCleaner == old(stopCleaner)
    {
      ghost var s0 := State();
      var keys := idle.Keys;
      while keys != {}
        invariant keys <= idle.Keys == s0.idle.Keys
        invariant count == s0.count && maxIdleTime == s0.maxIdleTime && maxConnectionsPerHost == s0.maxPerHost
        invariant stopCleaner == old(stopCleaner)
        invariant forall k :: k in keys ==> idle[k] == s0.idle[k]
        invariant forall k :: k in idle && k !in keys ==> idle[k] == []
        decreases keys
      {
        var k :| k in keys;
        ghost var before := idle;
        while idle[k] != []
          invariant k in idle && idle.Keys == s0.idle.Keys
          invariant count == s0.count && maxIdleTime == s0.maxIdleTime && maxConnectionsPerHost == s0.maxPerHost
          invariant stopCleaner == old(stopCleaner)
          invariant forall j :: j in idle && j != k ==> idle[j] == before[j]
          decreases |idle[k]|
        {
          idle := idle[k := idle[k][1..]];
        }
        keys := keys - {k};
      }
      assert idle == CleanIdle(s0).idle;
    }
  }
}
