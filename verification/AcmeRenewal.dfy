/** The certificate manager's ACME loop (internal/certmanager/certmanager.go): when it orders,
    what it stores, and what it serves.

    The Backend, the CA, and how long anything takes are free (`*`); the clock never goes back.
    Each run leaves a log, and `GoodLog` is what is promised of it. */
module AcmeRenewal {

  import opened Basics

  /** Times and durations are in nanoseconds. */
  const SECOND := 1_000_000_000
  const MIN_RETRY := 30 * SECOND
  const MAX_RETRY := 3600 * SECOND
  const LONGEST := 100 * 365 * 24 * 3600 * SECOND
  const MAX_INT64 := 0x7fff_ffff_ffff_ffff

  datatype Leaf = Leaf(notBefore: int, notAfter: int)

  /** time.Time.Sub saturates at the largest and smallest duration. */
  function Sub(a: int, b: int): int { Min(Max(a - b, -MAX_INT64 - 1), MAX_INT64) }

  function Lifetime(leaf: Leaf): int { Min(Max(Sub(leaf.notAfter, leaf.notBefore), SECOND), LONGEST) }

  function RenewAt(leaf: Leaf): int { leaf.notBefore + Lifetime(leaf) / 3 * 2 }

  /** Saturation never shows, a third of a lifetime is positive, and a certificate of at least a
      second is renewed before it expires. */
  lemma LifetimeIsClamped(leaf: Leaf)
    ensures Lifetime(leaf) == Min(Max(leaf.notAfter - leaf.notBefore, SECOND), LONGEST)
    ensures 0 < Lifetime(leaf) / 3
    ensures leaf.notAfter - leaf.notBefore >= SECOND ==> leaf.notBefore < RenewAt(leaf) < leaf.notAfter
  {
  }

  /** It is renewed two thirds of the way from its first moment to its last, up to the rounding of a
      third, if that lasts from a second to a hundred years. */
  lemma RenewedAtTwoThirds(leaf: Leaf)
    requires 1_000_000_000 <= leaf.notAfter - leaf.notBefore <= 100 * 365 * 24 * 3600 * 1_000_000_000
    ensures 2 * (leaf.notAfter - leaf.notBefore) - 4 <= 3 * (RenewAt(leaf) - leaf.notBefore) <= 2 * (leaf.notAfter - leaf.notBefore)
  {
  }

  /* ----- backoff ----- */

  /** How long the k-th failure in a row waits. */
  function Backoff(k: nat): (d: int)
    ensures MIN_RETRY <= d <= MAX_RETRY
  {
    if k <= 1 then MIN_RETRY else Min(Backoff(k - 1) * 2, MAX_RETRY)
  }

  ghost function Pow2(k: nat): nat { if k == 0 then 1 else 2 * Pow2(k - 1) }

  /** Thirty seconds, doubled with each failure in a row, up to an hour. */
  lemma {:induction false} BackoffDoubles(k: nat)
    ensures Backoff(k + 1) == Min(30_000_000_000 * Pow2(k), 3600_000_000_000)
  {
    if k > 0 {
      BackoffDoubles(k - 1);
      assert MIN_RETRY * Pow2(k) == 2 * (MIN_RETRY * Pow2(k - 1));
    }
  }

  /* ----- the log of a run ----- */

  /** A certificate chain and its private key, as the CA issued them. */
  datatype Pair = Pair(leaf: Leaf, chain: seq<int>, key: seq<int>)

  datatype Event =
    | Loaded(at: int, stored: Option<Leaf>)    // the Backend answered at startup
    | Refused(at: int)                         // an order was due, but the Backend cannot store its result
    | Ordered(at: int)
    | OrderFailed(at: int)
    | Issued(at: int, pair: Pair)
    | KeyWritten(at: int, key: seq<int>)       // the Backend took these bytes as the key
    | ChainWritten(at: int, chain: seq<int>)   // and these as the certificate
    | StoreFailed(at: int)                     // a write failed, or the pair did not parse
    | Served(at: int, pair: Pair)              // from now on handshakes use this pair

  predicate IsFailure(e: Event) { e.Refused? || e.OrderFailed? || e.StoreFailed? }

  /** Failures in a row: since the last certificate was loaded or served. */
  function Failures(log: seq<Event>): nat {
    if log == [] then 0 else
      var n := |log| - 1;
      if log[n].Loaded? || log[n].Served? then 0
      else if IsFailure(log[n]) then Failures(log[..n]) + 1
      else Failures(log[..n])
  }

  /** How many pairs were put into service. */
  function Servings(log: seq<Event>): nat {
    if log == [] then 0 else Servings(log[..|log| - 1]) + if log[|log| - 1].Served? then 1 else 0
  }

  /** The certificate served: when it was stored, and whether this run issued it. */
  datatype Serving = Serving(leaf: Leaf, storedAt: int, issued: bool)

  function InService(log: seq<Event>): Option<Serving> {
    if log == [] then None else
      var n := |log| - 1;
      match log[n]
      case Served(at, pair) => Some(Serving(pair.leaf, if n > 0 then log[n - 1].at else at, true))
      case Loaded(at, Some(leaf)) => Some(Serving(leaf, at, false))
      case _ => InService(log[..n])
  }

  /** The pair issued and not yet served. */
  function Unserved(log: seq<Event>): Option<Pair> {
    if log == [] then None else
      var n := |log| - 1;
      match log[n]
      case Issued(_, pair) => Some(pair)
      case Served(_, _) => None
      case _ => Unserved(log[..n])
  }

  /** An order is due: no issued pair waits, and the certificate served has had its time. */
  ghost predicate MayOrder(log: seq<Event>, at: int) {
    && log != [] && Unserved(log).None? && !log[|log| - 1].Ordered?
    && var s := InService(log);
       (s.Some? ==> at >= RenewAt(s.value.leaf) && (s.value.issued ==> at >= s.value.storedAt + Lifetime(s.value.leaf) / 3))
  }

  /** The k-th failure in a row is followed by a wait of at least its backoff. */
  ghost predicate Waited(log: seq<Event>, at: int) {
    log != [] && IsFailure(log[|log| - 1]) ==> at >= log[|log| - 1].at + Backoff(Failures(log))
  }

  /** The last two events are the writes of this very pair, key first. */
  ghost predicate BothWritten(log: seq<Event>, pair: Pair) {
    var n := |log|;
    2 <= n && log[n - 2].KeyWritten? && log[n - 2].key == pair.key && log[n - 1].ChainWritten? && log[n - 1].chain == pair.chain
  }

  ghost predicate EventOk(log: seq<Event>, e: Event) {
    Waited(log, e.at) &&
    match e
    case Loaded(_, _) => log == []
    case Refused(at) => MayOrder(log, at)
    case Ordered(at) => MayOrder(log, at)
    case OrderFailed(_) => log != [] && log[|log| - 1].Ordered?
    case Issued(_, _) => log != [] && log[|log| - 1].Ordered?
    case KeyWritten(_, key) => Unserved(log).Some? && key == Unserved(log).value.key
    case ChainWritten(_, chain) => Unserved(log).Some? && log[|log| - 1].KeyWritten? && chain == Unserved(log).value.chain
    case StoreFailed(_) => Unserved(log).Some?
    case Served(_, pair) => Unserved(log) == Some(pair) && BothWritten(log, pair)
  }

  ghost predicate GoodLog(log: seq<Event>) {
    log == [] ||
    var n := |log| - 1;
    EventOk(log[..n], log[n]) && (0 < n ==> log[n - 1].at <= log[n].at) && GoodLog(log[..n])
  }

  lemma LogMore(log: seq<Event>, e: Event)
    requires GoodLog(log) && EventOk(log, e) && (log != [] ==> log[|log| - 1].at <= e.at)
    ensures GoodLog(log + [e])
  {
    assert (log + [e])[..|log|] == log;
  }

  lemma AfterEvent(log: seq<Event>, e: Event)
    ensures InService(log + [e]) ==
            match e
            case Served(at, pair) => Some(Serving(pair.leaf, if log != [] then log[|log| - 1].at else at, true))
            case Loaded(at, Some(leaf)) => Some(Serving(leaf, at, false))
            case _ => InService(log)
    ensures Unserved(log + [e]) ==
            match e
            case Issued(_, pair) => Some(pair)
            case Served(_, _) => None
            case _ => Unserved(log)
    ensures Failures(log + [e]) == if e.Loaded? || e.Served? then 0 else if IsFailure(e) then Failures(log) + 1 else Failures(log)
  {
    assert (log + [e])[..|log|] == log;
  }

  /* ----- what a good log says about any of its events ----- */

  lemma {:induction false} GoodAt(log: seq<Event>, k: nat)
    requires GoodLog(log) && k < |log|
    ensures EventOk(log[..k], log[k]) && (0 < k ==> log[k - 1].at <= log[k].at)
  {
    var n := |log| - 1;
    if k < n {
      GoodAt(log[..n], k);
      assert log[..n][..k] == log[..k];
    }
  }

  lemma Unfold(log: seq<Event>, k: nat)
    requires k < |log|
    ensures log[..k + 1] == log[..k] + [log[k]]
  {
  }

  lemma {:induction false} TimesGrow(log: seq<Event>, i: nat, j: nat)
    requires GoodLog(log) && i <= j < |log|
    ensures log[i].at <= log[j].at
    decreases j - i
  {
    if i < j {
      TimesGrow(log, i, j - 1);
      GoodAt(log, j);
    }
  }

  /** A pair is served only right after the Backend took its key and then its chain, byte for byte
      as the CA issued them. */
  lemma ServedAfterWrites(log: seq<Event>, k: nat) returns (i: nat)
    requires GoodLog(log) && k < |log| && log[k].Served?
    ensures i + 2 < k && log[i] == Issued(log[i].at, log[k].pair) && forall j :: i < j < k ==> !log[j].Ordered? && !log[j].Served?
    ensures log[k - 2] == KeyWritten(log[k - 2].at, log[k].pair.key) && log[k - 1] == ChainWritten(log[k - 1].at, log[k].pair.chain)
  {
    GoodAt(log, k);
    assert log[..k][k - 1] == log[k - 1] && log[..k][k - 2] == log[k - 2];
    i := IssuedBefore(log, k);
  }

  /** An unserved pair was issued, and nothing was ordered or served since. */
  lemma {:induction false} IssuedBefore(log: seq<Event>, k: nat) returns (i: nat)
    requires GoodLog(log) && k <= |log| && Unserved(log[..k]).Some?
    ensures i < k && log[i] == Issued(log[i].at, Unserved(log[..k]).value)
    ensures forall j :: i < j < k ==> !log[j].Ordered? && !log[j].Served?
    decreases k
  {
    var n := k - 1;
    Unfold(log, n);
    AfterEvent(log[..n], log[n]);
    if log[n].Issued? {
      i := n;
    } else {
      GoodAt(log, n);
      i := IssuedBefore(log, n);
    }
  }

  /** After an issuance, up to the next order: the pair waits, or it is the one in service. */
  lemma {:induction false} IssuedThenServed(log: seq<Event>, i: nat, m: nat) returns (s: nat)
    requires GoodLog(log) && i < m <= |log| && log[i].Issued? && forall k :: i < k < m ==> !log[k].Ordered?
    ensures || Unserved(log[..m]) == Some(log[i].pair)
            || (&& Unserved(log[..m]).None? && i < s < m && log[s].Served? && log[s].pair == log[i].pair
                && InService(log[..m]) == Some(Serving(log[i].pair.leaf, log[s - 1].at, true)))
    decreases m
  {
    var n := m - 1;
    Unfold(log, n);
    AfterEvent(log[..n], log[n]);
    s := n;
    if n > i {
      s := IssuedThenServed(log, i, n);
      GoodAt(log, n);
      assert log[..n][n - 1] == log[n - 1];
      if log[n].Served? {
        s := n;
      }
    }
  }

  /** Two orders in a row: the first failed and the next waited at least its backoff, or it was
      issued, written, and served, and the next waited for a third of its lifetime since it was
      written, and for its renewal. */
  lemma OrdersKeepTheirDistance(log: seq<Event>, i: nat, j: nat) returns (s: nat)
    requires GoodLog(log) && i < j < |log| && log[i].Ordered? && log[j].Ordered?
    requires forall k :: i < k < j ==> !log[k].Ordered?
    ensures || (i + 1 < j && log[i + 1].OrderFailed? && log[j].at >= log[i + 1].at + Backoff(Failures(log[..i + 2])))
            || (&& i + 1 < j && log[i + 1].Issued? && i + 1 < s < j && log[s].Served? && log[s].pair == log[i + 1].pair
                && log[j].at >= log[s - 1].at + Lifetime(log[s].pair.leaf) / 3
                && log[j].at >= RenewAt(log[s].pair.leaf))
  {
    hide Lifetime, RenewAt, Backoff, Failures;
    OrderIsAnswered(log, i, j);
    GoodAt(log, j);
    s := i;
    if log[i + 1].Issued? {
      s := IssuedThenServed(log, i + 1, j);
    } else {
      GoodAt(log, i + 2);
      assert log[..i + 2][i + 1] == log[i + 1];
      TimesGrow(log, i + 2, j);
    }
  }

  /** Nothing follows an order but its failure or its issuance. */
  lemma OrderIsAnswered(log: seq<Event>, i: nat, j: nat)
    requires GoodLog(log) && i < j < |log| && log[i].Ordered? && log[j].Ordered?
    ensures i + 1 < j && (log[i + 1].OrderFailed? || log[i + 1].Issued?)
  {
    GoodAt(log, i);
    GoodAt(log, i + 1);
    assert log[..i + 1][i] == log[i];
    Unfold(log, i);
    AfterEvent(log[..i], log[i]);
  }

  /** An issued pair on its way to the Backend; its key is wiped once it is stored. */
  class Pending {
    const pair: Pair
    var key: seq<int>

    constructor (p: Pair)
      ensures pair == p && key == p.key
    {
      pair, key := p, p.key;
    }
  }

  class Manager {
    /** The Backend always answers and always stores, and the CA always issues a usable pair. */
    const reliable: bool
    var cert: Option<Leaf>
    var now: int
    var log: seq<Event>

    constructor (r: bool)
      ensures cert.None? && log == [] && reliable == r
    {
      reliable, cert, now, log := r, None, 0, [];
    }

    method Pass(atLeast: int)
      modifies `now
      ensures old(now) <= now && old(now) + atLeast <= now
    {
      var d: int := *;
      now := now + Max(Max(d, atLeast), 0);
    }

    method Note(e: Event)
      requires GoodLog(log) && EventOk(log, e) && (log != [] ==> log[|log| - 1].at <= e.at)
      modifies `log
      ensures GoodLog(log) && log == old(log) + [e] && log[|log| - 1] == e
      ensures InService(log) == (match e
                                 case Served(at, pair) => Some(Serving(pair.leaf, if old(log) != [] then old(log)[|old(log)| - 1].at else at, true))
                                 case Loaded(at, Some(leaf)) => Some(Serving(leaf, at, false))
                                 case _ => old(InService(log)))
      ensures Unserved(log) == (match e
                                case Issued(_, pair) => Some(pair)
                                case Served(_, _) => None
                                case _ => old(Unserved(log)))
      ensures Failures(log) == if e.Loaded? || e.Served? then 0 else if IsFailure(e) then old(Failures(log)) + 1 else old(Failures(log))
      ensures Servings(log) == old(Servings(log)) + if e.Served? then 1 else 0
    {
      LogMore(log, e);
      AfterEvent(log, e);
      log := log + [e];
    }

    /** The manager serves what the log says. */
    ghost predicate Consistent()
      reads this
    {
      && GoodLog(log)
      && (cert.None? <==> InService(log).None?) && (cert.Some? ==> InService(log).value.leaf == cert.value)
      && log != [] && log[|log| - 1].at <= now
    }

    /** Waits for the Backend's answer, retrying, and serves a usable stored certificate.  Returns
        false when stopped first. */
    method LoadStored(fuel: nat) returns (answered: bool)
      requires cert.None? && log == []
      modifies this
      ensures answered ==> Consistent() && Unserved(log).None? && log[|log| - 1].Loaded? && Failures(log) == 0
      ensures answered && InService(log).Some? ==> !InService(log).value.issued
      ensures !answered ==> log == [] && GoodLog(log)
      ensures reliable && 0 < fuel ==> answered
      ensures Servings(log) == 0
    {
      for i := 0 to fuel
        invariant cert.None? && log == [] && (reliable ==> i == 0)
      {
        Pass(0);
        var ok: bool, usable: Option<Leaf>, stop: bool := *, *, *;
        if ok || reliable {
          cert := usable;
          Note(Loaded(now, usable));
          return true;
        }
        if stop {
          return false;
        }
      }
      return false;
    }

    /** Orders a pair, unless the Backend could not take it. */
    method Obtain() returns (pending: Pending?, failed: bool)
      requires Consistent() && MayOrder(log, now) && Waited(log, now)
      modifies `now, `log
      ensures Consistent() && old(now) <= now && InService(log) == old(InService(log))
      ensures failed ==> pending == null && Unserved(log).None? && IsFailure(log[|log| - 1])
      ensures failed ==> Failures(log) == old(Failures(log)) + 1
      ensures !failed ==> pending != null && fresh(pending) && pending.key == pending.pair.key && Unserved(log) == Some(pending.pair)
      ensures !failed ==> log[|log| - 1].Issued? && Failures(log) == old(Failures(log))
      ensures (reliable ==> !failed) && Servings(log) == old(Servings(log))
    {
      hide GoodLog, InService, Unserved, Failures, Servings, Backoff, Lifetime, RenewAt;
      var writable: bool := *;
      if !writable && !reliable {
        Note(Refused(now));
        return null, true;
      }
      Note(Ordered(now));
      Pass(0);
      var issued: bool, usable: bool, leaf: Leaf, chain: seq<int>, key: seq<int> := *, *, *, *, *;
      if !(issued && usable) && !reliable {
        Note(OrderFailed(now));
        return null, true;
      }
      pending := new Pending(Pair(leaf, chain, key));
      Note(Issued(now, pending.pair));
      return pending, false;
    }

    /** Writes the key, then the chain, and parses the pair from the bytes written. */
    method StorePair(pending: Pending) returns (parsed: Option<Pair>)
      requires Consistent() && Unserved(log) == Some(pending.pair) && pending.key == pending.pair.key && Waited(log, now)
      modifies `now, `log
      ensures Consistent() && old(now) <= now && InService(log) == old(InService(log)) && Unserved(log) == Some(pending.pair)
      ensures parsed.Some? ==> parsed.value == pending.pair && BothWritten(log, pending.pair) && Failures(log) == old(Failures(log))
      ensures parsed.None? ==> log[|log| - 1].StoreFailed? && Failures(log) == old(Failures(log)) + 1
      ensures (reliable ==> parsed.Some?) && Servings(log) == old(Servings(log))
    {
      hide GoodLog, InService, Unserved, Failures, Servings, Backoff, Lifetime, RenewAt;
      Pass(0);
      var keyWritten: bool, chainWritten: bool, parses: bool := *, *, *;
      if reliable {
        keyWritten, chainWritten, parses := true, true, true;
      }
      if !keyWritten {
        Note(StoreFailed(now));
        return None;
      }
      Note(KeyWritten(now, pending.key));
      Pass(0);
      if !chainWritten {
        Note(StoreFailed(now));
        return None;
      }
      Note(ChainWritten(now, pending.pair.chain));
      if !parses {
        Note(StoreFailed(now));
        return None;
      }
      return Some(Pair(pending.pair.leaf, pending.pair.chain, pending.key));
    }

    /** Orders a pair, unless one is waiting, and stores it. */
    method ObtainAndStore(waiting: Pending?) returns (pending: Pending?, parsed: Option<Pair>)
      requires Consistent() && Waited(log, now)
      requires waiting == null ==> MayOrder(log, now)
      requires waiting != null ==> Unserved(log) == Some(waiting.pair) && waiting.key == waiting.pair.key
      modifies `now, `log
      ensures Consistent() && old(now) <= now && InService(log) == old(InService(log)) && Servings(log) == old(Servings(log))
      ensures waiting != null ==> pending == waiting
      ensures waiting == null && pending != null ==> fresh(pending)
      ensures pending == null ==> Unserved(log).None?
      ensures pending != null ==> Unserved(log) == Some(pending.pair) && pending.key == pending.pair.key
      ensures parsed.Some? ==> pending != null && parsed.value == pending.pair && BothWritten(log, pending.pair)
      ensures parsed.None? ==> IsFailure(log[|log| - 1]) && Failures(log) == old(Failures(log)) + 1
      ensures reliable ==> parsed.Some?
    {
      hide GoodLog, InService, Unserved, Failures, Servings, Backoff, Lifetime, RenewAt;
      var failed := false;
      pending, parsed := waiting, None;
      if pending == null {
        pending, failed := Obtain();
      }
      if !failed {
        parsed := StorePair(pending);
      }
    }

    /** The pair is put into service. */
    method Serve(pair: Pair)
      requires Consistent() && Unserved(log) == Some(pair) && BothWritten(log, pair)
      modifies this
      ensures Consistent() && Unserved(log).None? && Failures(log) == 0 && log[|log| - 1].Served? && cert == Some(pair.leaf)
      ensures InService(log) == Some(Serving(pair.leaf, old(log)[|old(log)| - 1].at, true)) && now == old(now)
      ensures Servings(log) == old(Servings(log)) + 1
    {
      hide GoodLog, InService, Unserved, Failures, Servings;
      Note(Served(now, pair));
      cert := Some(pair.leaf);
    }

    /** runACME, for at most `fuel` turns of its loop.  If nothing fails, a certificate is in service after
        the first, and of any two turns in a row at most one is spent waiting: the other renews. */
    method Run(fuel: nat)
      requires cert.None? && log == []
      modifies this
      ensures GoodLog(log)
      ensures reliable && 0 < fuel ==> cert.Some?
      ensures reliable ==> fuel <= 2 * Servings(log) + 1
    {
      hide GoodLog, InService, Unserved, Failures, Servings, Lifetime, RenewAt;
      var answered := LoadStored(fuel);
      if !answered {
        return;
      }
      var backoff := MIN_RETRY;
      var earliest: Option<int> := None;
      var pending: Pending? := null;
      for i := 0 to fuel
        invariant Consistent() && Waited(log, now) && !log[|log| - 1].Ordered? && backoff == Backoff(Failures(log) + 1)
        invariant pending == null <==> Unserved(log).None?
        invariant pending != null ==> fresh(pending) && Unserved(log) == Some(pending.pair) && pending.key == pending.pair.key
        invariant InService(log).Some? && InService(log).value.issued ==>
                    earliest.Some? && earliest.value >= InService(log).value.storedAt + Lifetime(InService(log).value.leaf) / 3
        invariant reliable ==> pending == null && (0 < i ==> cert.Some?)
        invariant reliable ==>
                    var due := cert.None? || (RenewAt(cert.value) <= now && (earliest.Some? ==> earliest.value <= now));
                    i <= 2 * Servings(log) + if due then 1 else 0
      {
        if cert.Some? && pending == null {
          var due := RenewAt(cert.value);
          if earliest.Some? && due < earliest.value {
            due := earliest.value;
          }
          if now < due {
            Pass(due - now);
            continue;
          }
        }
        var parsed;
        pending, parsed := ObtainAndStore(pending);
        if parsed.None? {
          Pass(backoff);
          backoff := Min(backoff * 2, MAX_RETRY);
          continue;
        }
        pending.key := seq(|pending.key|, _ => 0);
        pending := null;
        backoff := MIN_RETRY;
        earliest := Some(now + Lifetime(parsed.value.leaf) / 3);
        Pass(0);
        Serve(parsed.value);
      }
    }
  }

  /** Every run of the loop keeps its promises, and renews if nothing fails. */
  method RunFor(fuel: nat, reliable: bool) returns (log: seq<Event>)
    ensures GoodLog(log)
    ensures reliable ==> fuel <= 2 * Servings(log) + 1
  {
    var m := new Manager(reliable);
    m.Run(fuel);
    return m.log;
  }
}
