/** DNS-01 authorization of one ACME order (internal/acmecert/acmecert.go) at a DNS provider
    (internal/dnsprovider/dnsprovider.go).

    A provider call that fails may or may not have taken effect. */
module Dns01 {

  /** The TXT values at each name; a name without values has no record set. */
  type Zone = map<string, seq<string>>

  datatype Record = Record(name: string, value: string)

  /** What the CA answers for one authorization. */
  datatype Authz = Unreachable | AlreadyValid | NotOffered | NoKeyAuth | Challenge(record: Record)

  function At(z: Zone, n: string): seq<string> { if n in z then z[n] else [] }

  function Put(z: Zone, n: string, vs: seq<string>): Zone { if vs == [] then z - {n} else z[n := vs] }

  ghost predicate NoEmptySets(z: Zone) { forall n :: n in z ==> z[n] != [] }

  function WithValue(vs: seq<string>, v: string): (r: seq<string>)
    ensures v in r
  {
    if v in vs then vs else vs + [v]
  }

  /** The values at n that are no record of rs, in order. */
  ghost function Strip(vs: seq<string>, n: string, rs: set<Record>): (r: seq<string>)
    ensures forall v :: v in r <==> v in vs && Record(n, v) !in rs
  {
    if vs == [] then []
    else Strip(vs[..|vs| - 1], n, rs) + if Record(n, vs[|vs| - 1]) !in rs then [vs[|vs| - 1]] else []
  }

  /** slices.DeleteFunc on a copy. */
  method WithoutValue(vs: seq<string>, v: string, ghost n: string) returns (r: seq<string>)
    ensures r == Strip(vs, n, {Record(n, v)})
  {
    r := [];
    for i := 0 to |vs|
      invariant r == Strip(vs[..i], n, {Record(n, v)})
    {
      assert vs[..i + 1][..i] == vs[..i];
      if vs[i] != v {
        r := r + [vs[i]];
      }
    }
    assert vs[..|vs|] == vs;
  }

  /* ----- stripping ----- */

  lemma StripMore(vs: seq<string>, v: string, n: string, rs: set<Record>)
    ensures Strip(vs + [v], n, rs) == Strip(vs, n, rs) + if Record(n, v) !in rs then [v] else []
  {
    assert (vs + [v])[..|vs|] == vs;
  }

  lemma {:induction false} StripTwice(vs: seq<string>, n: string, a: set<Record>, b: set<Record>)
    ensures Strip(Strip(vs, n, a), n, b) == Strip(vs, n, a + b)
  {
    if vs != [] {
      var u, v := vs[..|vs| - 1], vs[|vs| - 1];
      StripTwice(u, n, a, b);
      StripMore(Strip(u, n, a), v, n, b);
      assert Strip(u, n, a) + [] == Strip(u, n, a);
    }
  }

  /** Exactly the sets without any of the records are left as they are. */
  lemma {:induction false} StripNothing(vs: seq<string>, n: string, rs: set<Record>)
    ensures Strip(vs, n, rs) == vs <==> forall v :: v in vs ==> Record(n, v) !in rs
  {
    if vs != [] {
      StripNothing(vs[..|vs| - 1], n, rs);
      assert vs == vs[..|vs| - 1] + [vs[|vs| - 1]];
      if forall v :: v in vs ==> Record(n, v) !in rs {
      } else {
        var v :| v in vs && Record(n, v) in rs;
        assert v !in Strip(vs, n, rs);
      }
    }
  }

  /** Two zones agree at every name, but for records of rs. */
  ghost predicate AgreeBut(z: Zone, start: Zone, rs: set<Record>) {
    forall n :: Strip(At(z, n), n, rs) == Strip(At(start, n), n, rs)
  }

  lemma AgreeButMore(z: Zone, start: Zone, rs: set<Record>, r: Record)
    requires AgreeBut(z, start, rs)
    ensures AgreeBut(z, start, rs + {r})
  {
    forall n
      ensures Strip(At(z, n), n, rs + {r}) == Strip(At(start, n), n, rs + {r})
    {
      StripTwice(At(z, n), n, rs, {r});
      StripTwice(At(start, n), n, rs, {r});
    }
  }

  lemma PresentAgrees(z: Zone, start: Zone, rs: set<Record>, r: Record)
    requires AgreeBut(z, start, rs) && r in rs
    ensures AgreeBut(Put(z, r.name, WithValue(At(z, r.name), r.value)), start, rs)
  {
    var z' := Put(z, r.name, WithValue(At(z, r.name), r.value));
    forall n
      ensures Strip(At(z', n), n, rs) == Strip(At(start, n), n, rs)
    {
      assert Strip(At(z, n), n, rs) == Strip(At(start, n), n, rs);
      if n == r.name {
        StripMore(At(z, n), r.value, n, rs);
        assert At(z', n) == WithValue(At(z, n), r.value);
      }
    }
  }

  lemma CleanupAgrees(z: Zone, start: Zone, rs: set<Record>, r: Record, vs: seq<string>)
    requires AgreeBut(z, start, rs) && r in rs && vs == Strip(At(z, r.name), r.name, {r})
    ensures AgreeBut(Put(z, r.name, vs), start, rs)
  {
    var z' := Put(z, r.name, vs);
    forall n
      ensures Strip(At(z', n), n, rs) == Strip(At(start, n), n, rs)
    {
      assert Strip(At(z, n), n, rs) == Strip(At(start, n), n, rs);
      if n == r.name {
        StripTwice(At(z, n), n, {r}, rs);
        assert {r} + rs == rs && At(z', n) == vs;
      }
    }
  }

  lemma CleanupTakesOne(z: Zone, r: Record, vs: seq<string>)
    requires NoEmptySets(z) && vs == Strip(At(z, r.name), r.name, {r})
    ensures var z' := Put(z, r.name, vs);
            NoEmptySets(z') && r.value !in At(z', r.name) && forall n, v :: v in At(z', n) ==> v in At(z, n)
  {
    var z' := Put(z, r.name, vs);
    assert At(z', r.name) == vs;
    forall n, v
      ensures v in At(z', n) ==> v in At(z, n)
    {
      assert n != r.name ==> At(z', n) == At(z, n);
    }
  }

  /** None of the records is in the zone. */
  ghost predicate Absent(z: Zone, rs: set<Record>) { forall r :: r in rs ==> r.value !in At(z, r.name) }

  /** What a zone from which all the records are gone holds, and exactly when it is what it was at the start. */
  lemma Restored(z: Zone, start: Zone, rs: set<Record>)
    requires AgreeBut(z, start, rs) && Absent(z, rs) && NoEmptySets(z) && NoEmptySets(start)
    ensures forall n :: At(z, n) == Strip(At(start, n), n, rs)
    ensures z == start <==> Absent(start, rs)
  {
    forall n
      ensures At(z, n) == Strip(At(start, n), n, rs)
    {
      assert Strip(At(z, n), n, rs) == Strip(At(start, n), n, rs);
      StripNothing(At(z, n), n, rs);
    }
    if Absent(start, rs) {
      forall n
        ensures At(z, n) == At(start, n)
      {
        StripNothing(At(start, n), n, rs);
      }
      assert z.Keys == start.Keys by {
        forall n
          ensures n in z <==> n in start
        {
          assert At(z, n) == At(start, n);
        }
      }
      assert forall n :: n in z ==> At(z, n) == z[n];
    }
  }

  /* ----- one order ----- */

  ghost function SetOf(rs: seq<Record>): set<Record> { set r | r in rs }

  /** The records the CA asks for, in order. */
  function Challenges(answers: seq<Authz>): seq<Record> {
    if answers == [] then [] else
      var a, before := answers[|answers| - 1], Challenges(answers[..|answers| - 1]);
      if a.Challenge? then before + [a.record] else before
  }

  lemma NoChallenges(answers: seq<Authz>)
    ensures Challenges(answers[..0]) == []
  {
  }

  lemma ChallengesMore(answers: seq<Authz>, n: nat)
    requires n < |answers|
    ensures Challenges(answers[..n + 1]) ==
            if answers[n].Challenge? then Challenges(answers[..n]) + [answers[n].record] else Challenges(answers[..n])
  {
    assert answers[..n + 1][..n] == answers[..n];
  }

  lemma {:induction false} ChallengesAre(answers: seq<Authz>)
    ensures forall r :: r in Challenges(answers) <==> Challenge(r) in answers
  {
    if answers != [] {
      var n := |answers| - 1;
      ChallengesAre(answers[..n]);
      assert answers == answers[..n] + [answers[n]];
    }
  }

  /** An answer with which an order goes on. */
  predicate GoesOn(a: Authz) { a == AlreadyValid || a.Challenge? }

  class Order {
    /** The provider's calls do not fail. */
    const reliable: bool
    /** The records are seen everywhere in time, and the CA takes and validates each. */
    const granted: bool
    var txt: Zone
    var pending: seq<Record>
    /** The records the CA was asked to look at. */
    var accepted: seq<Record>
    /** The records the log says to remove by hand. */
    var warned: seq<Record>
    var open: bool
    ghost const start: Zone

    constructor (zone: Zone, r: bool, g: bool)
      requires NoEmptySets(zone)
      ensures reliable == r && granted == g
      ensures txt == start == zone && pending == accepted == warned == [] && open
    {
      txt, pending, accepted, warned, open := zone, [], [], [], true;
      start, reliable, granted := zone, r, g;
    }

    ghost predicate Valid()
      reads this
    {
      NoEmptySets(txt) && NoEmptySets(start) && AgreeBut(txt, start, SetOf(pending))
    }

    /** Present at the provider: the value goes beside the ones there. */
    method Present(r: Record) returns (ok: bool)
      requires Valid() && r in pending && open
      modifies this`txt
      ensures Valid()
      ensures (reliable ==> ok) && (ok ==> r.value in At(txt, r.name))
      ensures forall n, v :: v in At(old(txt), n) ==> v in At(txt, n)
    {
      hide AgreeBut, Strip;
      PresentAgrees(txt, start, SetOf(pending), r);
      ok := *;
      ok := ok || reliable;
      var applied: bool := *;
      if ok || applied {
        txt := Put(txt, r.name, WithValue(At(txt, r.name), r.value));
      }
    }

    /** Cleanup at the provider: the value goes, and the record set with the last one. */
    method Cleanup(r: Record) returns (ok: bool)
      requires Valid() && r in pending && open
      modifies this`txt
      ensures Valid()
      ensures (reliable ==> ok) && (ok ==> r.value !in At(txt, r.name))
      ensures forall n, v :: v in At(txt, n) ==> v in At(old(txt), n)
    {
      hide AgreeBut, Strip, NoEmptySets, Put, At;
      var vs := WithoutValue(At(txt, r.name), r.value, r.name);
      CleanupAgrees(txt, start, SetOf(pending), r, vs);
      CleanupTakesOne(txt, r, vs);
      ok := *;
      ok := ok || reliable;
      var applied: bool := *;
      if ok || applied {
        txt := Put(txt, r.name, vs);
      }
    }

    ghost predicate AllSet()
      reads this
    {
      forall r :: r in pending ==> r.value in At(txt, r.name)
    }

    /** The CA looks a record up: it is there. */
    method Accept(r: Record) returns (ok: bool)
      requires r.value in At(txt, r.name)
      modifies this`accepted
      ensures accepted == old(accepted) + [r] && (granted ==> ok)
    {
      accepted := accepted + [r];
      ok := *;
      ok := ok || granted;
    }

    /** Sets every record, waits for them, and has them validated.  It gets through the first `reached`
        answers, and the records pending are exactly the ones these ask for. */
    method Solve(answers: seq<Authz>) returns (ok: bool, ghost reached: nat)
      requires Valid() && open && pending == [] && accepted == []
      modifies this`txt, this`pending, this`accepted
      ensures Valid()
      ensures reached <= |answers| && pending == Challenges(answers[..reached])
      // It stops short at an answer it cannot use, or right after a record it could not set.
      ensures reached < |answers| ==> !ok && (!GoesOn(answers[reached]) || (!reliable && 0 < reached && answers[reached - 1].Challenge?))
      ensures accepted <= pending
      ensures accepted != [] ==> AllSet() && reached == |answers|
      ensures ok ==> accepted == pending && forall a :: a in answers ==> GoesOn(a)
      ensures reliable && granted && (forall a :: a in answers ==> GoesOn(a)) ==> ok && accepted == Challenges(answers)
    {
      hide AgreeBut, NoEmptySets, Challenges;
      reached := 0;
      assert Challenges(answers[..0]) == [] by { NoChallenges(answers); }
      for i := 0 to |answers|
        invariant Valid() && AllSet() && accepted == [] && reached == i && pending == Challenges(answers[..i])
        invariant forall j :: 0 <= j < i ==> GoesOn(answers[j])
      {
        ChallengesMore(answers, i);
        if answers[i] == AlreadyValid {
          reached := i + 1;
          continue;
        }
        if !answers[i].Challenge? {
          return false, reached;
        }
        var r := answers[i].record;
        AgreeButMore(txt, start, SetOf(pending), r);
        assert SetOf(pending + [r]) == SetOf(pending) + {r};
        pending := pending + [r];
        reached := i + 1;
        var set' := Present(r);
        if !set' {
          return false, reached;
        }
      }
      var propagated: bool := *;
      if !propagated && !granted {
        return false, reached;
      }
      ghost var all := pending;
      for i := 0 to |pending|
        invariant pending == all && accepted == all[..i] && Valid() && AllSet()
      {
        var taken := Accept(pending[i]);
        if !taken {
          return false, reached;
        }
      }
      assert all[..|all|] == all && answers[..|answers|] == answers;
      // What the CA found, once it has looked at every record.
      ok := *;
      ok := ok || granted;
    }

    /** The deferred removal of every pending record; it goes on past a failure. */
    method RemoveAll()
      requires Valid() && open && warned == []
      modifies this`txt, this`warned
      ensures Valid()
      ensures forall r :: r in pending && r.value in At(txt, r.name) ==> r in warned
      ensures forall r :: r in warned ==> r in pending
      ensures reliable ==> warned == []
    {
      hide AgreeBut, NoEmptySets;
      for i := 0 to |pending|
        invariant Valid()
        invariant forall j :: 0 <= j < i && pending[j].value in At(txt, pending[j].name) ==> pending[j] in warned
        invariant forall r :: r in warned ==> r in pending
        invariant reliable ==> warned == []
      {
        var ok := Cleanup(pending[i]);
        if !ok {
          warned := warned + [pending[i]];
        }
      }
    }

    /** The whole order, however it ends.  Outside its own records the zone is as it was; a record of
        its own left behind was warned of; and when no cleanup failed, every TXT set is back to its
        earlier values in order exactly if none of the order's values was there before. */
    method AuthorizeByDNS(answers: seq<Authz>) returns (ok: bool, ghost reached: nat)
      requires Valid() && open && pending == accepted == warned == [] && txt == start
      modifies this
      ensures !open
      ensures reached <= |answers| && pending == Challenges(answers[..reached])
      ensures reached < |answers| ==> !ok && (!GoesOn(answers[reached]) || (!reliable && 0 < reached && answers[reached - 1].Challenge?))
      ensures AgreeBut(txt, old(txt), SetOf(pending))
      ensures forall r :: r in pending && r.value in At(txt, r.name) ==> r in warned
      ensures forall r :: r in warned ==> r in pending
      ensures reliable ==> warned == []
      ensures warned == [] ==> (txt == old(txt) <==> Absent(old(txt), SetOf(pending)))
      ensures warned == [] ==> forall n :: At(txt, n) == Strip(At(old(txt), n), n, SetOf(pending))
      ensures ok ==> accepted == pending
      ensures reliable && granted && (forall a :: a in answers ==> GoesOn(a)) ==>
                ok && accepted == Challenges(answers) && warned == []
    {
      ok, reached := Solve(answers);
      RemoveAll();
      open := false;
      if warned == [] {
        Restored(txt, start, SetOf(pending));
      }
    }
  }

  /** One order on a zone that holds none of the values the CA may ask for leaves the zone as it found it,
      unless it warned. */
  method RunOrder(zone: Zone, answers: seq<Authz>) returns (after: Zone, warned: seq<Record>)
    requires NoEmptySets(zone)
    ensures warned == [] && (forall r :: Challenge(r) in answers ==> r.value !in At(zone, r.name)) ==> after == zone
    ensures forall n, v :: v in At(zone, n) && Challenge(Record(n, v)) !in answers ==> v in At(after, n)
    ensures forall n, v :: v in At(after, n) && v !in At(zone, n) ==> Record(n, v) in warned
  {
    hide Challenges;
    var o := new Order(zone, false, false);
    ghost var reached;
    var ok;
    ok, reached := o.AuthorizeByDNS(answers);
    after, warned := o.txt, o.warned;
    ChallengesAre(answers[..reached]);
    assert forall r :: r in o.pending ==> Challenge(r) in answers[..reached] && Challenge(r) in answers;
    forall n, v
      ensures v in At(zone, n) && Challenge(Record(n, v)) !in answers ==> v in At(after, n)
      ensures v in At(after, n) && v !in At(zone, n) ==> Record(n, v) in warned
    {
      assert Strip(At(after, n), n, SetOf(o.pending)) == Strip(At(zone, n), n, SetOf(o.pending));
      assert v in Strip(At(after, n), n, SetOf(o.pending)) <==> v in At(after, n) && Record(n, v) !in SetOf(o.pending);
      assert v in Strip(At(zone, n), n, SetOf(o.pending)) <==> v in At(zone, n) && Record(n, v) !in SetOf(o.pending);
    }
  }

  /** The condition is needed.  A zone already holds the value the CA asks for, and no call fails: the
      order ends without a warning, and that value is gone. */
  method RemovesWhatWasThere(zone: Zone, r: Record) returns (after: Zone, warned: seq<Record>)
    requires NoEmptySets(zone) && r.value in At(zone, r.name)
    ensures warned == [] && r.value !in At(after, r.name) && after != zone
    ensures forall n :: At(after, n) == Strip(At(zone, n), n, {r})
  {
    hide AgreeBut;
    var o := new Order(zone, true, false);
    ghost var reached;
    var ok;
    ok, reached := o.AuthorizeByDNS([Challenge(r)]);
    after, warned := o.txt, o.warned;
    assert [Challenge(r)][..1][..0] == [] && Challenges([Challenge(r)][..1]) == [r];
    assert SetOf(o.pending) == {r};
    assert r.value !in Strip(At(zone, r.name), r.name, {r});
  }
}
