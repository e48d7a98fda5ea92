/** Sessions on a connection (fleet/fleet.go, run): what bounds them, and what ends them under a running command. */
module PoolSessions {
  import opened MapSums
  import opened Pool
  import opened PoolProtocol

  ghost function Sessions(s: System, c: nat): set<nat> {
    set id | id in s.calls && s.calls[id].pc.Running? && s.calls[id].pc.on == c
  }

  /** Sessions opened on c by calls that hold the token of another connection: retries. */
  ghost function Retries(s: System, c: nat): set<nat> {
    set id | id in Sessions(s, c) && s.calls[id].pc.held != c
  }

  /** What the semaphore does bound: sessions beyond MAX_SESSIONS are retries, which took no token of c. */
  lemma SessionsBoundedButForRetries(trace: seq<System>, i: nat, c: nat)
    requires Run(trace) && i < |trace| && c in trace[i].keyOf
    ensures |Sessions(trace[i], c)| <= MAX_SESSIONS + |Retries(trace[i], c)|
  {
    hide Run, Installed, HeldInstalled, UsesOwnKey, Pending, DeadIsDown, Owned;
    var s := trace[i];
    ReachableStatesAreSound(trace, i);
    var direct := Sessions(s, c) - Retries(s, c);
    assert Sessions(s, c) == direct + Retries(s, c);
    assert direct <= Holders(s, c);
    SubsetSize(direct, Holders(s, c));
  }

  /** reap ends exactly the sessions whose connection no call of get has touched for IDLE_TTL,
      even though they are in use. */
  lemma ReapEndsIdleSessions(trace: seq<System>, i: nat, id: nat, now: int, s': System)
    requires Run(trace) && i < |trace| && Next(trace[i], Reap(now), s')
    requires id in trace[i].calls && trace[i].calls[id].pc.Running? && trace[i].calls[id].pc.on in trace[i].st.up
    ensures var c := trace[i].calls[id].pc.on;
            c in trace[i].st.last && (c !in s'.st.up <==> now - trace[i].st.last[c] > IDLE_TTL)
  {
    hide Run, HeldInstalled, Tokens, Pending;
    ReachableStatesAreSound(trace, i);
  }

  /** A retry drops whatever the table holds for its key. It takes down a connection other than the one that refused
      its session exactly when the table holds another one by then. */
  lemma DropTakesDownOther(trace: seq<System>, i: nat, id: nat, s': System)
    requires Run(trace) && i < |trace| && Next(trace[i], Drop(id), s')
    ensures var s := trace[i];
            && id in s.calls && s.calls[id].pc.Dropping?
            && var key, held := s.calls[id].key, s.calls[id].pc.held;
               && ((exists k :: k in s.st.conns && k !in s'.st.conns && s.st.conns[k] != held)
                   <==> key in s.st.conns && s.st.conns[key] != held)
               && ((exists c :: c != held && c in s.st.up && c !in s'.st.up)
                   <==> key in s.st.conns && s.st.conns[key] != held && s.st.conns[key] in s.st.up)
  {
    hide Run;
    var s := trace[i];
    var key, held := s.calls[id].key, s.calls[id].pc.held;
    if key in s.st.conns && s.st.conns[key] != held {
      assert key !in s'.st.conns;
      assert s.st.conns[key] !in s'.st.up;
    }
  }
}
