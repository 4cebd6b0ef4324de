/** The Secret cache under config reload (internal/resolver/cache.go, internal/config/running.go)
    and the locked buffers it owns (internal/secret/secret.go).

    A method of Cache is one section under its lock, or one event outside it: a request's first half,
    a reload's store and its prune, a timer that fires and the callback that runs later, Close, a
    caller's Release, and the clock.  A request's second half, `Insert`, reads the config snapshot
    and caches by it, and events outside the lock may fall in between.  Valid is kept by all of them,
    so it holds in every interleaving; `Get` composes a request from its halves with any other
    events in between. */
module SecretCache {

  import opened Basics

  /** A read of a Backend: where, when, and what it returned. */
  datatype Source = Source(backend: string, location: string, readAt: int, bytes: Bytes)

  /** A plaintext Secret in locked memory; released once, it holds nothing. */
  class Secret {
    var live: bool
    var bytes: Bytes
    ghost const source: Source
    /** The cache entry this buffer was handed to, if any. */
    ghost var holder: Entry?

    constructor New(b: Bytes, ghost s: Source)
      ensures live && bytes == b && source == s && holder == null
    {
      live, bytes, source, holder := true, b, s, null;
    }

    /** A copy in memory of its own; None when released or when no locked memory is left for it. */
    method Clone(memory: bool) returns (c: Option<Secret>)
      ensures c.Some? <==> live && memory
      ensures c.Some? ==> fresh(c.value) && c.value.live && c.value.bytes == bytes && c.value.source == source && c.value.holder == null
    {
      if !live || !memory {
        return None;
      }
      var s := new Secret.New(bytes, source);
      return Some(s);
    }

    /** Wipes the value; safe to call more than once. */
    method Release()
      modifies `live, `bytes
      ensures !live && bytes == []
    {
      live, bytes := false, [];
    }
  }

  datatype SecretConfig = SecretConfig(backend: string, location: string, cacheTTL: nat)

  type Config = map<string, SecretConfig>

  /** A Secret kept for later requests, with the place and time of its fetch. */
  class Entry {
    const name: string
    const backend: string
    const location: string
    const fetched: int
    const value: Secret
    var ttl: int
    var armed: bool
    var deadline: int

    constructor (n: string, b: string, l: string, f: int, t: int, v: Secret)
      ensures name == n && backend == b && location == l && fetched == f && value == v
      ensures ttl == t && armed && deadline == f + t
    {
      name, backend, location, fetched, value, ttl, armed, deadline := n, b, l, f, v, t, true, f + t;
    }

    method Wipe()
      modifies `armed, value`live, value`bytes
      ensures !armed && !value.live && value.bytes == []
    {
      armed := false;
      value.Release();
    }
  }

  /** How long cfg lets an entry under that name last. */
  function Trim(cfg: Config, name: string, ttl: int): int {
    if name in cfg then Min(ttl, cfg[name].cacheTTL) else ttl
  }

  /** The config caches the name, from that backend and location. */
  predicate Caches(cfg: Config, name: string, backend: string, location: string) {
    name in cfg && cfg[name].backend == backend && cfg[name].location == location && cfg[name].cacheTTL != 0
  }

  /** The entry is one that cfg caches, for no longer than cfg says. */
  ghost predicate Agrees(cfg: Config, e: Entry)
    reads e
  {
    Caches(cfg, e.name, e.backend, e.location) && e.ttl <= cfg[e.name].cacheTTL
  }

  class Cache {
    /** The config snapshot in effect, and whether its reload has yet to prune. */
    var current: Config
    var reloading: bool
    var entries: map<string, Entry>
    var closed: bool
    var now: int
    /** Every entry ever made, and those whose timer has fired but whose callback has not run. */
    var made: set<Entry>
    var fired: set<Entry>

    /** How many times a Backend was asked for a Secret. */
    var asked: nat

    /** The buffers callers own, and (ghost) every buffer ever made. */
    var callers: set<Secret>
    ghost var buffers: set<Secret>

    predicate Holds(e: Entry)
      reads `entries
    {
      e.name in entries && entries[e.name] == e
    }

    /** Each entry made owns its own buffer, read from where the entry says, after the fetch began. */
    ghost predicate EntryOk(e: Entry)
      reads `buffers, `callers, `entries, `fired, `now, e, e.value
    {
      && e.value in buffers && e.value !in callers && e.value.holder == e
      && e.value.source.backend == e.backend && e.value.source.location == e.location
      && e.fetched <= e.value.source.readAt <= now
      // A timer ends the entry at its TTL, unless its callback is already on its way.
      && (Holds(e) && e.armed ==> e.deadline == e.fetched + e.ttl)
      && (Holds(e) && !e.armed ==> e in fired)
    }

    /** A buffer is live exactly while someone owns it: one caller, or the one entry in the map. */
    ghost predicate BufferOk(s: Secret)
      reads `callers, `entries, `made, s
    {
      && (s.live ==> s.bytes == s.source.bytes)
      && (s.live <==> s in callers || (s.holder != null && Holds(s.holder)))
      && (s.holder != null ==> s !in callers && s.holder in made && s.holder.value == s)
    }

    ghost predicate Owned()
      reads this, made, buffers, set e | e in made :: e.value
    {
      && (forall n :: n in entries ==> entries[n] in made && entries[n].name == n)
      && (forall e :: e in made ==> EntryOk(e))
      && (forall s :: s in buffers ==> BufferOk(s))
      && callers <= buffers && fired <= made
      && (closed ==> entries == map[])
    }

    /** Once a reload has pruned, every entry agrees with the config in effect. */
    ghost predicate Agreed()
      reads this, made
    {
      !reloading ==> forall n :: n in entries ==> entries[n] in made && Agrees(current, entries[n])
    }

    ghost predicate Valid()
      reads this, made, buffers, set e | e in made :: e.value
    {
      Owned() && Agreed()
    }

    constructor (cfg: Config)
      ensures Valid() && current == cfg && !reloading && !closed && entries == map[] && asked == 0
      ensures fresh(buffers) && fresh(made)
    {
      current, reloading, entries, closed, now, asked := cfg, false, map[], false, 0, 0;
      made, fired, buffers, callers := {}, {}, {}, {};
    }

    /** What an entry needs to stay in order: its buffer its own, and its timer, if it is in the map. */
    twostate lemma EntryStays(e: Entry)
      requires old(EntryOk(e)) && old(buffers) <= buffers && old(now) <= now
      requires callers <= old(callers) && e.value.holder == old(e.value.holder)
      requires Holds(e) ==>
                 old(Holds(e)) && e.armed == old(e.armed) && e.deadline == old(e.deadline) && e.ttl == old(e.ttl) && (e in old(fired) ==> e in fired)
      ensures EntryOk(e)
    {
    }

    /** And what a buffer needs: the same owner. */
    twostate lemma BufferStays(s: Secret)
      requires old(BufferOk(s)) && s.live == old(s.live) && s.bytes == old(s.bytes) && s.holder == old(s.holder)
      requires (s in callers <==> s in old(callers)) && old(made) <= made
      requires s.holder != null ==> (Holds(s.holder) <==> old(Holds(s.holder)))
      ensures BufferOk(s)
    {
    }

    /** A buffer made outside the cache, by a fetch or a copy, belongs to the request that made it. */
    method Adopt(s: Secret)
      requires Valid() && s !in buffers && s.live && s.bytes == s.source.bytes && s.holder == null
      modifies `buffers, `callers
      ensures Valid() && buffers == old(buffers) + {s} && callers == old(callers) + {s}
    {
      buffers, callers := buffers + {s}, callers + {s};
    }

    /** What is in the map is live, and what its entry says it is. */
    lemma InTheMap(e: Entry)
      requires Owned() && Holds(e)
      ensures e in made && e.value in buffers && e.value !in callers && e.value.live
      ensures e.value.bytes == e.value.source.bytes && e.fetched <= e.value.source.readAt <= now
      ensures e.value.source.backend == e.backend && e.value.source.location == e.location
    {
      assert e in made && EntryOk(e) && BufferOk(e.value);
    }

    lemma InMap()
      requires Owned()
      ensures forall n :: n in entries ==> entries[n] in made && entries[n].name == n
    {
    }

    /** What is not in the map any more is released. */
    lemma OutOfTheMap(e: Entry)
      requires Owned() && e in made && !Holds(e)
      ensures e.value in buffers && !e.value.live && e.value !in callers
    {
      assert EntryOk(e) && BufferOk(e.value);
    }

    /** An entry just put into the map with a live buffer of its own, read since its fetch began. */
    lemma NewEntry(e: Entry)
      requires Holds(e) && e in made && e.armed && e.deadline == e.fetched + e.ttl && e.fetched <= e.value.source.readAt <= now
      requires e.value in buffers && e.value !in callers && e.value.holder == e && e.value.live && e.value.bytes == e.value.source.bytes
      requires e.value.source.backend == e.backend && e.value.source.location == e.location
      ensures EntryOk(e) && BufferOk(e.value)
    {
    }

    /** What a caller owns no entry does. */
    lemma CallersOwn(s: Secret)
      requires Owned() && s in callers
      ensures s in buffers && s.holder == null && s.live && s.bytes == s.source.bytes && forall e :: e in made ==> e.value != s
    {
      assert BufferOk(s);
      forall e | e in made
        ensures e.value != s
      {
        assert EntryOk(e);
      }
    }

    /** The first half of get: a hit returns a copy of the caller's own. */
    method Check(name: string, backend: string, location: string, ttl: int, memory: bool) returns (hit: bool, r: Option<Secret>)
      requires Valid()
      modifies `buffers, `callers
      ensures Valid()
      ensures hit <==> name in entries && entries[name].backend == backend && entries[name].location == location
                       && now - entries[name].fetched < ttl
      // A hit never finds a released buffer: the only failure is lack of locked memory.
      ensures r.Some? <==> hit && memory
      ensures r.Some? ==> fresh(r.value) && r.value in callers && r.value.live
      ensures r.Some? ==> r.value.bytes == r.value.source.bytes == entries[name].value.bytes
      ensures r.Some? ==> r.value.source.backend == backend && r.value.source.location == location
                          && now - ttl < r.value.source.readAt <= now
      ensures buffers == old(buffers) + (if r.Some? then {r.value} else {})
      ensures callers == old(callers) + (if r.Some? then {r.value} else {})
    {
      hide Cache.EntryOk, Cache.BufferOk;
      r := None;
      if name in entries {
        var e := entries[name];
        InTheMap(e);
        if e.backend == backend && e.location == location && now - e.fetched < ttl {
          r := e.value.Clone(memory);
          if r.Some? {
            Adopt(r.value);
          }
          return true, r;
        }
      }
      return false, None;
    }

    /** A caller is done with its Secret. */
    method Drop(s: Secret)
      requires Valid() && s in callers
      modifies `callers, s`live, s`bytes
      ensures Valid() && !s.live && callers == old(callers) - {s}
    {
      assert BufferOk(s);
      callers := callers - {s};
      s.Release();
    }

    /** Takes e out of the map and wipes its buffer. */
    method Remove(e: Entry)
      requires Owned() && Holds(e)
      modifies `entries, e.value`live, e.value`bytes
      ensures Owned() && entries == old(entries) - {e.name} && !e.value.live
    {
      assert e in made && EntryOk(e) && BufferOk(e.value);
      entries := entries - {e.name};
      e.value.Release();
      assert BufferOk(e.value);
      forall e' | e' in made
        ensures EntryOk(e')
      {
        assert old(EntryOk(e'));
        EntryStays(e');
      }
      forall s | s in buffers && s != e.value
        ensures BufferOk(s)
      {
        assert old(BufferOk(s));
        BufferStays(s);
      }
      hide Cache.EntryOk, Cache.BufferOk;
    }

    /** The same, and stops its timer. */
    method WipeOld(e: Entry)
      requires Owned() && Holds(e)
      modifies `entries, e`armed, e.value`live, e.value`bytes
      ensures Owned() && entries == old(entries) - {e.name} && !e.value.live
      ensures forall s :: s in callers ==> s.bytes == old(s.bytes)
    {
      assert e in made && EntryOk(e) && BufferOk(e.value);
      entries := entries - {e.name};
      e.Wipe();
      forall e' | e' in made
        ensures EntryOk(e')
      {
        assert old(EntryOk(e'));
      }
      forall s | s in buffers
        ensures BufferOk(s)
      {
        assert old(BufferOk(s));
      }
    }

    /** Hands the request's buffer to a new entry. */
    method Put(name: string, backend: string, location: string, fetched: int, ttl: int, value: Secret) returns (e: Entry)
      requires Owned() && name !in entries && !closed
      requires value in callers && value.source.backend == backend && value.source.location == location
      requires fetched <= value.source.readAt <= now
      modifies `made, `entries, `callers, value`holder
      ensures Owned() && callers == old(callers) - {value}
      ensures fresh(e) && entries == old(entries)[name := e] && made == old(made) + {e}
      ensures e.name == name && e.backend == backend && e.location == location
      ensures e.ttl == ttl && e.value == value && e.fetched == fetched
    {
      hide Cache.EntryOk, Cache.BufferOk;
      CallersOwn(value);
      e := new Entry(name, backend, location, fetched, ttl, value);
      callers := callers - {value};
      value.holder := e;
      made, entries := made + {e}, entries[name := e];
      NewEntry(e);
      forall e' | e' in old(made)
        ensures EntryOk(e')
      {
        assert old(EntryOk(e'));
        EntryStays(e');
      }
      forall s | s in buffers && s != value
        ensures BufferOk(s)
      {
        assert old(BufferOk(s));
        BufferStays(s);
      }
    }

    /** Reload puts the new snapshot in effect; no other reload starts before it has pruned. */
    method Store(cfg: Config)
      requires Valid() && !reloading
      modifies `current, `reloading
      ensures Valid() && current == cfg && reloading
    {
      current, reloading := cfg, true;
    }

    /** Prune keeps an entry exactly when the new config still caches it and its time is not up,
        and then for no longer than the new config says. */
    ghost predicate Keeps(e: Entry)
      reads `current, `now
    {
      Caches(current, e.name, e.backend, e.location) && now - e.fetched < current[e.name].cacheTTL
    }

    method PruneOne(n: string)
      requires Owned() && n in entries
      modifies `entries, entries[n], entries[n].value`live, entries[n].value`bytes
      ensures Owned()
      ensures var e := old(entries[n]);
              if Keeps(e) then entries == old(entries) && e.ttl == Trim(current, n, old(e.ttl))
              else entries == old(entries) - {n}
      ensures forall s :: s in callers ==> s.bytes == old(s.bytes)
    {
      var e := entries[n];
      assert EntryOk(e) && BufferOk(e.value);
      if !Caches(current, n, e.backend, e.location) || current[n].cacheTTL - (now - e.fetched) <= 0 {
        WipeOld(e);
      } else if current[n].cacheTTL < e.ttl {
        var left := current[n].cacheTTL - (now - e.fetched);
        e.ttl := current[n].cacheTTL;
        e.armed, e.deadline := true, now + left;
      }
    }

    method PruneAll()
      requires Owned()
      modifies `entries, made, set e | e in made :: e.value
      ensures Owned() && entries.Keys <= old(entries).Keys
      ensures forall n :: n in old(entries) ==> (n in entries <==> Keeps(old(entries)[n]))
      ensures forall n :: n in entries ==>
                entries[n] == old(entries)[n] && entries[n].ttl == Trim(current, n, old(entries[n].ttl))
      ensures forall s :: s in callers ==> s.bytes == old(s.bytes)
    {
      hide Cache.EntryOk, Cache.BufferOk, Cache.Keeps, Trim, Cache.Owned;
      var names := entries.Keys;
      InMap();
      while names != {}
        invariant Owned() && names <= entries.Keys <= old(entries).Keys
        invariant forall n :: n in entries ==> entries[n] in made && entries[n].name == n
        invariant forall n :: n in entries ==> entries[n] == old(entries)[n]
        invariant forall n :: n in names ==> entries[n].ttl == old(entries[n].ttl)
        invariant forall n :: n in old(entries) && n !in names ==> (n in entries <==> Keeps(old(entries)[n]))
        invariant forall n :: n in entries && n !in names ==> entries[n].ttl == Trim(current, n, old(entries[n].ttl))
        invariant forall s :: s in callers ==> s.bytes == old(s.bytes)
        decreases names
      {
        var n :| n in names;
        names := names - {n};
        PruneOne(n);
        InMap();
      }
    }

    /** Reload's callback: applies the snapshot now in effect to the cache. */
    method Prune()
      requires Valid() && reloading
      modifies `entries, `reloading, made, set e | e in made :: e.value
      ensures Valid() && !reloading
      ensures entries.Keys <= old(entries).Keys
      ensures forall n :: n in old(entries) ==>
                (n in entries <==>
                  && n in current && current[n].backend == old(entries)[n].backend && current[n].location == old(entries)[n].location
                  && 0 < current[n].cacheTTL && now - old(entries)[n].fetched < current[n].cacheTTL)
      ensures forall n :: n in entries ==>
                && n in current && entries[n] == old(entries)[n]
                && entries[n].ttl == if current[n].cacheTTL < old(entries[n].ttl) then current[n].cacheTTL else old(entries[n].ttl)
      ensures forall s :: s in callers ==> s.bytes == old(s.bytes)
    {
      hide Cache.EntryOk, Cache.BufferOk;
      InMap();
      PruneAll();
      reloading := false;
      assert forall n :: n in entries ==> Keeps(entries[n]) && Agrees(current, entries[n]);
    }

    /** A timer whose time has come fires; its callback runs later. */
    method Fire(e: Entry)
      requires Valid() && e in made && e.armed && e.deadline <= now
      modifies `fired, e`armed
      ensures Valid() && e in fired && !e.armed
    {
      fired, e.armed := fired + {e}, false;
      forall e' | e' in made
        ensures EntryOk(e')
      {
        assert old(EntryOk(e'));
      }
    }

    /** The callback: removes e if it is still the entry under its name, and wipes it. */
    method Expire(e: Entry)
      requires Valid() && e in fired
      modifies `fired, `entries, e.value`live, e.value`bytes
      ensures Valid() && !e.value.live
      // A stale callback never removes a newer entry.
      ensures entries == if old(Holds(e)) then old(entries) - {e.name} else old(entries)
      ensures forall s :: s in callers ==> s.bytes == old(s.bytes)
    {
      hide Cache.EntryOk, Cache.BufferOk;
      if e.name in entries && entries[e.name] == e {
        InTheMap(e);
        Remove(e);
      } else {
        // Its buffer went when it left the map; to release it again changes nothing.
        OutOfTheMap(e);
        ReleaseAgain(e.value);
      }
      Done(e);
    }

    method ReleaseAgain(s: Secret)
      requires Owned() && s in buffers && !s.live
      modifies s`live, s`bytes
      ensures Owned() && !s.live
    {
      assert BufferOk(s);
      s.Release();
    }

    /** The callback of an entry that is not in the map has run. */
    method Done(e: Entry)
      requires Owned() && !Holds(e)
      modifies `fired
      ensures Owned() && fired == old(fired) - {e}
    {
      fired := fired - {e};
      forall e' | e' in made
        ensures EntryOk(e')
      {
        assert old(EntryOk(e'));
      }
    }

    method Close()
      requires Valid()
      modifies `entries, `closed, made, set e | e in made :: e.value
      ensures Valid() && closed && entries == map[]
      ensures forall s :: s in callers ==> s.bytes == old(s.bytes)
    {
      var names := entries.Keys;
      while names != {}
        invariant Owned() && names == entries.Keys
        invariant forall n :: n in entries ==> n in old(entries) && entries[n] == old(entries)[n]
        invariant forall s :: s in callers ==> s.bytes == old(s.bytes)
        decreases names
      {
        var n :| n in names;
        names := names - {n};
        WipeOld(entries[n]);
      }
      closed := true;
    }

    method Tick(d: nat)
      requires Valid()
      modifies `now
      ensures Valid() && now == old(now) + d
    {
      now := now + d;
    }

    /** With nothing in the map, every live buffer is a caller's. */
    lemma OnlyCallersLeft()
      requires Owned() && entries == map[]
      ensures forall s :: s in buffers && s.live ==> s in callers
    {
      forall s | s in buffers
        ensures s.live ==> s in callers
      {
        assert BufferOk(s);
      }
    }

    lemma ValuesAreBuffers()
      requires Owned()
      ensures forall e :: e in made ==> e.value in buffers
      ensures forall s :: s in callers ==> s in buffers && s.live
    {
      assert forall e :: e in made ==> EntryOk(e);
      assert forall s :: s in callers ==> s in buffers && BufferOk(s);
    }

    /** Caches `value`, which the request owns, if the config snapshot it read maps the name that way,
        and releases it otherwise.  By now that snapshot may not be the one in effect, but then the
        reload that replaced it has yet to prune. */
    method InsertBy(snapshot: Config, name: string, backend: string, location: string, ttl: int, fetched: int, value: Secret)
      requires Valid() && (snapshot == current || reloading)
      requires value in callers && value.source.backend == backend && value.source.location == location
      requires fetched <= value.source.readAt <= now
      modifies `entries, `made, `callers, made, set e | e in made :: e.value, value
      ensures Valid() && callers == old(callers) - {value}
      ensures if !closed && Caches(snapshot, name, backend, location)
              then && name in entries && entries == old(entries)[name := entries[name]] && fresh(entries[name])
                   && entries[name].value == value && entries[name].fetched == fetched
                   && entries[name].ttl == Min(ttl, snapshot[name].cacheTTL)
              else entries == old(entries) && !value.live
      ensures old(made) <= made && fresh(made - old(made))
      ensures forall s :: s in callers ==> s.bytes == old(s.bytes)
    {
      hide Cache.EntryOk, Cache.BufferOk;
      if closed || !Caches(snapshot, name, backend, location) {
        Drop(value);
        return;
      }
      if name in entries {
        WipeOld(entries[name]);
      }
      var e := Put(name, backend, location, fetched, Min(ttl, snapshot[name].cacheTTL), value);
    }

    /** What may happen while a request holds the cache's lock: only what does not take that lock.  A
        reload may store its snapshot, but not prune, and no other reload starts before it has. */
    method Unlocked(fuel: nat, mine: set<Secret>)
      requires Valid() && mine <= callers
      modifies `current, `reloading, `now, `fired, `callers, made, buffers
      ensures Valid() && mine <= callers && old(now) <= now
      ensures current == old(current) || reloading
    {
      hide Cache.EntryOk, Cache.BufferOk, Caches;
      var left := fuel;
      while 0 < left
        invariant Valid() && mine <= callers && old(now) <= now
        invariant current == old(current) || reloading
      {
        left := left - 1;
        ValuesAreBuffers();
        var step: int, d: nat, cfg: Config := *, *, *;
        match step {
          case 0 => Tick(d);
          case 1 => if !reloading { Store(cfg); }
          case 2 => if e :| e in made && e.armed && e.deadline <= now { Fire(e); }
          case 3 => if s :| s in callers && s !in mine { Drop(s); }
          case _ => return;
        }
      }
    }

    /** The second half of get, under the lock: reads the snapshot in effect, and caches by it, with
        anything that does not take the lock in between. */
    method Insert(name: string, backend: string, location: string, ttl: int, fetched: int, value: Secret,
                  fuel: nat, mine: set<Secret>)
      requires Valid() && mine <= callers && value !in mine
      requires value in callers && value.source.backend == backend && value.source.location == location
      requires fetched <= value.source.readAt <= now
      modifies this, made, buffers
      ensures Valid() && mine <= callers && value !in callers && old(now) <= now
      ensures closed == old(closed) && buffers == old(buffers) && old(made) <= made && fresh(made - old(made))
      ensures asked == old(asked) && (current == old(current) || reloading)
      ensures if !closed && name in old(current) && old(current)[name].backend == backend
                 && old(current)[name].location == location && old(current)[name].cacheTTL != 0
              then && name in entries && entries == old(entries)[name := entries[name]] && fresh(entries[name])
                   && entries[name].value == value && entries[name].fetched == fetched
                   && entries[name].ttl == Min(ttl, old(current)[name].cacheTTL)
              else entries == old(entries) && !value.live
    {
      hide Cache.EntryOk, Cache.BufferOk;
      var snapshot := current;
      ValuesAreBuffers();
      Unlocked(fuel, mine + {value});
      ValuesAreBuffers();
      InsertBy(snapshot, name, backend, location, ttl, fetched, value);
    }

    /** Another request's first half. */
    method AnotherCheck()
      requires Valid()
      modifies `buffers, `callers
      ensures Valid() && old(callers) <= callers && old(buffers) <= buffers && fresh(buffers - old(buffers))
    {
      hide Cache.EntryOk, Cache.BufferOk;
      var name: string, backend: string, location: string, ttl: int, memory: bool := *, *, *, *, *;
      var hit, r := Check(name, backend, location, ttl, memory);
    }

    /** Another request's second half, whenever and under whatever config it began. */
    method AnotherInsert(fuel: nat, mine: set<Secret>)
      requires Valid() && mine <= callers
      modifies this, made, buffers
      ensures Valid() && old(now) <= now && mine <= callers && closed == old(closed) && old(asked) <= asked
      ensures old(buffers) <= buffers && fresh(buffers - old(buffers)) && fresh(made - old(made)) && old(made) <= made
    {
      hide Cache.EntryOk, Cache.BufferOk, Caches;
      var name: string, backend: string, location: string, bytes: Bytes := *, *, *, *;
      var ttl: int, fetched: int := *, *;
      if fetched <= now {
        asked := asked + 1;
        ghost var readAt :| fetched <= readAt <= now;
        var value := new Secret.New(bytes, Source(backend, location, readAt, bytes));
        Adopt(value);
        ValuesAreBuffers();
        Insert(name, backend, location, ttl, fetched, value, fuel, mine);
      }
    }

    /** Anything else that may happen, up to `fuel` steps of it, except to the buffers in `mine`. */
    method Others(fuel: nat, mine: set<Secret>)
      requires Valid() && mine <= callers
      modifies this, made, buffers
      ensures Valid() && mine <= callers && old(now) <= now && old(asked) <= asked
      // Once closed, closed for good, and then the map stays empty.
      ensures old(closed) ==> closed && entries == map[]
      ensures old(buffers) <= buffers && fresh(buffers - old(buffers)) && fresh(made - old(made)) && old(made) <= made
    {
      hide Cache.EntryOk, Cache.BufferOk, Caches, Cache.Keeps;
      var left := fuel;
      while 0 < left
        invariant Valid() && mine <= callers && old(now) <= now && (old(closed) ==> closed) && old(asked) <= asked
        invariant old(buffers) <= buffers && fresh(buffers - old(buffers)) && fresh(made - old(made)) && old(made) <= made
      {
        left := left - 1;
        ValuesAreBuffers();
        var step: int, d: nat, cfg: Config := *, *, *;
        match step {
          case 0 => Tick(d);
          case 1 => if !reloading { Store(cfg); }
          case 2 => if reloading { Prune(); }
          case 3 => if e :| e in made && e.armed && e.deadline <= now { Fire(e); }
          case 4 => if e :| e in fired { Expire(e); }
          case 5 => Close();
          case 6 => AnotherCheck();
          case 7 => AnotherInsert(fuel, mine);
          case 8 => if s :| s in callers && s !in mine { Drop(s); }
          case _ => return;
        }
      }
    }

    /** One request, with anything else happening between its steps.  `memory` is whether there is locked
        memory for one more copy, and `answer` what the Backend returns if it is asked, None if it fails.

        A Secret the request returns is the caller's own, is live, holds what the named backend returned
        for the named location, and was read less than `ttl` before the request began, or after it. */
    method Get(name: string, backend: string, location: string, ttl: int, memory: bool, answer: Option<Bytes>, fuel: nat)
      returns (r: Option<Secret>, ghost snapshot: Config)
      requires Valid() && 0 < ttl
      modifies this, made, buffers
      ensures Valid() && (old(closed) ==> closed)
      ensures r.Some? ==>
                && r.value in callers && r.value.live && r.value.bytes == r.value.source.bytes
                && r.value.source.backend == backend && r.value.source.location == location
                && old(now) - ttl < r.value.source.readAt <= now
      // A hit returns what is cached, without asking; only lack of memory can stop it.
      ensures old(name in entries && entries[name].backend == backend && entries[name].location == location
                  && now - entries[name].fetched < ttl) ==>
                && asked == old(asked) && entries == old(entries) && (r.Some? <==> memory)
                && (r.Some? ==> r.value.bytes == old(entries[name].value.bytes))
      // A miss asks, and returns what was answered.
      ensures !old(name in entries && entries[name].backend == backend && entries[name].location == location
                   && now - entries[name].fetched < ttl) ==>
                && old(asked) < asked && (r.Some? <==> answer.Some?)
                && (r.Some? ==> r.value.bytes == answer.value)
                // And it is cached, if the cache is open and the snapshot read caches the name.  That is the one
                // in effect, unless the reload that replaced it has yet to prune.
                && (answer.Some? && memory ==>
                      && (snapshot == current || reloading)
                      && (!closed && name in snapshot && snapshot[name].backend == backend && snapshot[name].location == location
                          && snapshot[name].cacheTTL != 0 ==>
                            && name in entries && entries[name].value.live && entries[name].value.bytes == answer.value
                            && entries[name].backend == backend && entries[name].location == location
                            && old(now) <= entries[name].fetched))
    {
      hide Cache.EntryOk, Cache.BufferOk, Caches;
      var hit, copy := Check(name, backend, location, ttl, memory);
      if hit {
        return copy, current;
      }
      Others(fuel, {});
      r, snapshot := Fetch(name, backend, location, ttl, memory, answer, fuel);
    }

    /** The bytes are cached under the name if the cache is open and the snapshot read caches it. */
    ghost predicate Cached(snapshot: Config, name: string, backend: string, location: string, since: int, bytes: Bytes)
      reads this, entries.Values, set e | e in entries.Values :: e.value
    {
      && (snapshot == current || reloading)
      && (!closed && name in snapshot && snapshot[name].backend == backend && snapshot[name].location == location
          && snapshot[name].cacheTTL != 0 ==>
            && name in entries && entries[name].value.live && entries[name].value.bytes == bytes
            && entries[name].backend == backend && entries[name].location == location && since <= entries[name].fetched)
    }

    /** A request that missed: fetches, and caches what it fetched beside the copy it delivers. */
    method Fetch(name: string, backend: string, location: string, ttl: int, memory: bool, answer: Option<Bytes>, fuel: nat)
      returns (r: Option<Secret>, ghost snapshot: Config)
      requires Valid()
      modifies this, made, buffers
      ensures Valid() && (old(closed) ==> closed) && old(asked) < asked
      ensures r.Some? ==>
                && r.value in callers && r.value.live && r.value.bytes == r.value.source.bytes
                && r.value.source.backend == backend && r.value.source.location == location
                && old(now) <= r.value.source.readAt <= now
      ensures (r.Some? <==> answer.Some?) && (r.Some? ==> r.value.bytes == answer.value)
      ensures answer.Some? && memory ==> Cached(snapshot, name, backend, location, old(now), answer.value)
    {
      hide Cache.EntryOk, Cache.BufferOk, Caches, Cache.Cached;
      var fetched := now;
      snapshot := current;
      Others(fuel, {});
      asked := asked + 1;
      if answer.None? {
        return None, snapshot;
      }
      var value := new Secret.New(answer.value, Source(backend, location, now, answer.value));
      Adopt(value);
      var delivered := value.Clone(memory);
      if delivered.None? {
        return Some(value), snapshot;
      }
      Adopt(delivered.value);
      snapshot := KeepValue(name, backend, location, ttl, fetched, value, delivered.value, fuel);
      return delivered, snapshot;
    }

    /** Others act, and then the value is cached or released; the copy delivered is not touched. */
    method KeepValue(name: string, backend: string, location: string, ttl: int, fetched: int, value: Secret, copy: Secret, fuel: nat)
      returns (ghost snapshot: Config)
      requires Valid() && value in callers && copy in callers && value != copy
      requires value.source.backend == backend && value.source.location == location && fetched <= value.source.readAt <= now
      modifies this, made, buffers
      ensures Valid() && (old(closed) ==> closed) && old(now) <= now && old(asked) <= asked
      ensures copy in callers && copy.live && copy.bytes == copy.source.bytes
      ensures Cached(snapshot, name, backend, location, fetched, value.source.bytes)
    {
      hide Cache.EntryOk, Cache.BufferOk, Caches;
      ValuesAreBuffers();
      Others(fuel, {value, copy});
      ValuesAreBuffers();
      snapshot := current;
      Insert(name, backend, location, ttl, fetched, value, fuel, {copy});
      CallersOwn(copy);
      if name in entries {
        InTheMap(entries[name]);
      }
    }
  }

  /** Every run from an empty cache, which stops with no prune outstanding: what is cached is only what
      the config then in effect allows, for no longer than it says, whatever requests begun under older
      configs did; it is live and holds what was read where the config says. */
  method Run(initial: Config, fuel: nat) returns (c: Cache)
    ensures c.Valid() && !c.reloading
    ensures forall n :: n in c.entries ==>
              && n in c.current && 0 < c.current[n].cacheTTL && c.entries[n].ttl <= c.current[n].cacheTTL
              && c.entries[n].value.live && c.entries[n].value.bytes == c.entries[n].value.source.bytes
              && c.entries[n].value.source.backend == c.current[n].backend
              && c.entries[n].value.source.location == c.current[n].location
  {
    hide Cache.EntryOk, Cache.BufferOk, Cache.Keeps;
    c := new Cache(initial);
    c.Others(fuel, {});
    if c.reloading {
      c.ValuesAreBuffers();
      c.Prune();
    }
    forall n | n in c.entries
      ensures Agrees(c.current, c.entries[n]) && c.entries[n].name == n && c.entries[n].value.live
      ensures c.entries[n].value.bytes == c.entries[n].value.source.bytes
      ensures c.entries[n].value.source.backend == c.entries[n].backend && c.entries[n].value.source.location == c.entries[n].location
    {
      c.InTheMap(c.entries[n]);
    }
  }

  /** Close, and then any number of further steps by anyone: nothing is cached again. */
  method RunPastClose(initial: Config, before: nat, after: nat) returns (c: Cache)
    ensures c.Valid() && c.closed && c.entries == map[]
    ensures forall s :: s in c.buffers && s.live ==> s in c.callers
  {
    hide Cache.EntryOk, Cache.BufferOk, Cache.Keeps;
    c := new Cache(initial);
    c.Others(before, {});
    c.ValuesAreBuffers();
    c.Close();
    c.ValuesAreBuffers();
    c.Others(after, {});
    c.OnlyCallersLeft();
  }
}
