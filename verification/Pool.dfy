/** The SSH connection pool (fleet/pool.go): each lock region is a method, proved equal to a step
    on values in which a connection is named by its SSH client. */
module Pool {
  import opened Wrappers

  const MAX_SESSIONS: nat := 4
  /** Ten minutes, in nanoseconds. */
  const IDLE_TTL := 600_000_000_000

  /** `up` holds the clients whose transport is up; it shrinks by Close and by loss of the transport. */
  datatype State = State(conns: map<string, nat>, dead: set<nat>, last: map<nat, int>, sem: map<nat, nat>, up: set<nat>)

  const EMPTY := State(map[], {}, map[], map[], {})

  /** The connection of a key, unless it is marked dead. */
  function Alive(st: State, key: string): Option<nat> {
    if key in st.conns && st.conns[key] !in st.dead then Some(st.conns[key]) else None
  }

  function FindStep(st: State, key: string, now: int): (State, Option<nat>) {
    match Alive(st, key)
    case Some(c) => (st.(last := st.last[c := now]), Some(c))
    case None => (st, None)
  }

  function InstallStep(st: State, key: string, client: nat, now: int): (State, nat) {
    var (found, r) := FindStep(st, key, now);
    match r
    case Some(c) => (found.(up := found.up - {client}), c)
    case None =>
      (st.(conns := st.conns[key := client], last := st.last[client := now], sem := st.sem[client := 0]), client)
  }

  function DropStep(st: State, key: string): State {
    if key in st.conns then
      var c := st.conns[key];
      st.(conns := st.conns - {key}, dead := st.dead + {c}, up := st.up - {c})
    else st
  }

  /** Dead, or unused for more than IDLE_TTL. */
  predicate Stale(st: State, now: int, key: string)
    requires key in st.conns && st.conns[key] in st.last
  {
    st.conns[key] in st.dead || now - st.last[st.conns[key]] > IDLE_TTL
  }

  ghost function Remove(st: State, keys: set<string>): State {
    st.(conns := st.conns - keys, up := st.up - (set k | k in keys && k in st.conns :: st.conns[k]))
  }

  ghost function ReapStep(st: State, now: int): State {
    Remove(st, set k | k in st.conns && st.conns[k] in st.last && Stale(st, now, k))
  }

  ghost function CloseStep(st: State): State {
    Remove(st, st.conns.Keys)
  }

  class Conn {
    const client: nat
    var last: int
    var dead: bool
    var tokens: nat

    constructor (client: nat, now: int)
      ensures this.client == client && last == now && !dead && tokens == 0
    {
      this.client, last, dead, tokens := client, now, false, 0;
    }
  }

  class ConnPool {
    var conns: map<string, Conn>
    var up: set<nat>
    ghost var st: State
    ghost var made: map<nat, Conn>

    /** `st` describes the pool; `made` holds every connection ever installed, by client. */
    ghost predicate Valid()
      reads this, made.Values
    {
      && up == st.up && conns.Keys == st.conns.Keys
      && (forall k :: k in conns ==> conns[k].client == st.conns[k] && Made(conns[k]))
      && made.Keys == st.last.Keys == st.sem.Keys && st.dead <= made.Keys
      && (forall i :: i in made ==> Describes(i))
    }

    ghost predicate Made(c: Conn)
      reads this
    {
      c.client in made && made[c.client] == c
    }

    ghost predicate Describes(i: nat)
      requires i in made
      reads this, made[i]
    {
      var c := made[i];
      && c.client == i && i in st.last && i in st.sem
      && c.last == st.last[i] && c.tokens == st.sem[i] && (c.dead <==> i in st.dead)
    }

    constructor ()
      ensures Valid() && st == EMPTY && made == map[]
    {
      conns, up := map[], {};
      st, made := EMPTY, map[];
    }

    /** First region of get: reuse what is there. */
    method Find(key: string, now: int) returns (c: Conn?)
      requires Valid()
      modifies made.Values, `st
      ensures Valid() && made == old(made)
      ensures st == FindStep(old(st), key, now).0
      ensures var r := FindStep(old(st), key, now).1;
              if r.Some? then c != null && Made(c) && c.client == r.value else c == null
    {
      hide Describes;
      c := null;
      if key in conns {
        AgreesOn(key);
        if !conns[key].dead {
          c := conns[key];
          Touch(c, now);
        }
      }
    }

    /** c.last = now */
    method Touch(c: Conn, now: int)
      requires Valid() && Made(c)
      modifies c, `st
      ensures Valid() && st == old(st).(last := old(st).last[c.client := now])
    {
      assert Describes(c.client);
      c.last := now;
      st := st.(last := st.last[c.client := now]);
      forall i | i in made ensures Describes(i) {
        assert i != c.client ==> old(Describes(i));
      }
    }

    /** Second region of get, with a client dialled in between: another call may have been faster. */
    method Install(key: string, client: nat, now: int) returns (c: Conn)
      requires Valid() && client !in made
      modifies this, made.Values
      ensures Valid() && fresh(made.Values - old(made.Values)) && old(made.Keys) <= made.Keys
      ensures st == InstallStep(old(st), key, client, now).0
      ensures c.client == InstallStep(old(st), key, client, now).1 && Made(c)
    {
      hide Describes, FindStep, InstallStep;
      InstallCases(st, key, client, now);
      var cur := Find(key, now);
      if cur != null {
        c := cur;
        CloseClient(client);
      } else {
        c := new Conn(client, now);
        Add(key, c);
      }
    }

    /** client.Close() on a client that is in nobody's connection */
    method CloseClient(client: nat)
      requires Valid()
      modifies `up, `st
      ensures Valid() && st == old(st).(up := old(st).up - {client})
    {
      up := up - {client};
      st := st.(up := st.up - {client});
      forall i | i in made ensures Describes(i) {
        assert old(Describes(i));
      }
    }

    /** p.conns[key] = nc */
    method Add(key: string, c: Conn)
      requires Valid() && c.client !in made && !c.dead && c.tokens == 0
      modifies `conns, `st, `made
      ensures Valid() && made == old(made)[c.client := c]
      ensures st == old(st).(conns := old(st).conns[key := c.client], last := old(st).last[c.client := c.last],
                             sem := old(st).sem[c.client := 0])
    {
      conns := conns[key := c];
      made := made[c.client := c];
      st := st.(conns := st.conns[key := c.client], last := st.last[c.client := c.last], sem := st.sem[c.client := 0]);
      forall i | i in made ensures Describes(i) {
        assert i != c.client ==> old(Describes(i));
      }
    }

    /** The watcher goroutine, once client.Wait has returned. */
    method MarkDead(c: Conn)
      requires Valid() && Made(c)
      modifies c, `st
      ensures Valid() && st == old(st).(dead := old(st).dead + {c.client})
    {
      c.dead := true;
      st := st.(dead := st.dead + {c.client});
    }

    method Drop(key: string)
      requires Valid()
      modifies this, made.Values
      ensures Valid() && made == old(made) && st == DropStep(old(st), key)
    {
      if key in conns {
        var c := conns[key];
        c.dead := true;
        up := up - {c.client};
        conns := conns - {key};
        st := DropStep(st, key);
      }
    }

    method Reap(now: int)
      requires Valid()
      modifies `conns, `up, `st
      ensures Valid() && st == ReapStep(old(st), now)
    {
      hide Valid, Describes, Remove;
      ghost var before := st;
      ghost var gone := {};
      RemoveNothing(before);
      var todo := conns.Keys;
      Agrees();
      while todo != {}
        invariant todo <= before.conns.Keys && gone !! todo
        invariant gone == set k | k in before.conns && k !in todo
                                  && before.conns[k] in before.last && Stale(before, now, k)
        invariant st == Remove(before, gone) && Valid()
      {
        var k :| k in todo;
        RemoveMore(before, gone, k);
        Agrees();
        AgreesOn(k);
        if conns[k].dead || now - conns[k].last > IDLE_TTL {
          CloseAndDelete(k);
          gone := gone + {k};
        }
        todo := todo - {k};
      }
      assert gone == set k | k in before.conns && before.conns[k] in before.last && Stale(before, now, k);
    }

    method Close()
      requires Valid()
      modifies `conns, `up, `st
      ensures Valid() && st == CloseStep(old(st))
    {
      hide Valid, Describes, Remove;
      ghost var before := st;
      ghost var gone := {};
      RemoveNothing(before);
      var todo := conns.Keys;
      Agrees();
      while todo != {}
        invariant todo <= before.conns.Keys && gone == before.conns.Keys - todo
        invariant st == Remove(before, gone) && Valid()
      {
        var k :| k in todo;
        RemoveMore(before, gone, k);
        Agrees();
        CloseAndDelete(k);
        gone := gone + {k};
        todo := todo - {k};
      }
      assert gone == before.conns.Keys;
    }

    lemma Agrees()
      requires Valid()
      ensures conns.Keys == st.conns.Keys
    {
    }

    lemma AgreesOn(k: string)
      requires Valid() && k in conns
      ensures k in st.conns && st.conns[k] == conns[k].client && conns[k].client in st.last
      ensures conns[k].last == st.last[conns[k].client]
      ensures conns[k].dead <==> conns[k].client in st.dead
    {
      assert Describes(conns[k].client);
    }

    method CloseAndDelete(k: string)
      requires Valid() && k in conns
      modifies `conns, `up, `st
      ensures Valid() && st == Remove(old(st), {k})
    {
      assert (set l | l in {k} && l in st.conns :: st.conns[l]) == {conns[k].client};
      up := up - {conns[k].client};
      conns := conns - {k};
      st := Remove(st, {k});
      assert forall i :: i in made ==> old(Describes(i));
    }

    /** The send on the semaphore channel: possible while fewer than MAX_SESSIONS tokens are out. */
    method TryAcquire(c: Conn) returns (ok: bool)
      requires Valid() && Made(c)
      modifies c, `st
      ensures Valid() && ok == (old(c.tokens) < MAX_SESSIONS)
      ensures st == if ok then old(st).(sem := old(st).sem[c.client := old(c.tokens) + 1]) else old(st)
    {
      ok := c.tokens < MAX_SESSIONS;
      if ok {
        c.tokens := c.tokens + 1;
        st := st.(sem := st.sem[c.client := c.tokens]);
      }
    }

    /** The receive that gives a token back. */
    method Release(c: Conn)
      requires Valid() && Made(c) && c.tokens > 0
      modifies c, `st
      ensures Valid() && st == old(st).(sem := old(st).sem[c.client := old(c.tokens) - 1])
    {
      c.tokens := c.tokens - 1;
      st := st.(sem := st.sem[c.client := c.tokens]);
    }
  }

  /** Installing is finding and closing the new client, or adding it. */
  lemma InstallCases(st: State, key: string, client: nat, now: int)
    ensures var (found, r) := FindStep(st, key, now);
            && (r.Some? ==> InstallStep(st, key, client, now) == (found.(up := found.up - {client}), r.value))
            && (r.None? ==>
                  && found == st
                  && InstallStep(st, key, client, now) ==
                     (st.(conns := st.conns[key := client], last := st.last[client := now],
                          sem := st.sem[client := 0]), client))
  {
  }

  lemma RemoveNothing(st: State)
    ensures Remove(st, {}) == st
  {
    assert st.conns - {} == st.conns;
  }

  lemma RemoveMore(st: State, gone: set<string>, k: string)
    requires k in st.conns && k !in gone
    ensures Remove(Remove(st, gone), {k}) == Remove(st, gone + {k})
    ensures var r := Remove(st, gone);
            k in r.conns && r.conns[k] == st.conns[k] && r.last == st.last && r.dead == st.dead
  {
    var r := Remove(st, gone);
    assert r.conns - {k} == st.conns - (gone + {k});
    assert (set l | l in {k} && l in r.conns :: r.conns[l]) == {st.conns[k]};
    assert (set l | l in gone + {k} && l in st.conns :: st.conns[l])
        == (set l | l in gone && l in st.conns :: st.conns[l]) + {st.conns[k]};
  }
}
