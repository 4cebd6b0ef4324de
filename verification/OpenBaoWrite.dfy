/** WriteCourierKey in the OpenBao plugin (plugins/openbao/internal/openbao/openbao.go): a
    check-and-set loop on one KV v2 record, with any number of other such loops and of other clients
    on the same record. */
module OpenBaoWrite {
  import opened Basics

  type Fields = map<string, string>

  /** One Courier Key write. */
  datatype Write = Write(field: string, value: string)

  datatype Outcome = Written | CasFailed | Failed

  /** A version of the record, and where in its history the record it belongs to began: removing a
      record with its metadata starts its version numbers again. */
  datatype Version = Version(fields: Fields, base: nat)

  /** What a read showed: the fields, the version number, and (for the proof) whether the record was
      live, not deleted, and where it began. */
  datatype Seen = Seen(fields: Fields, number: nat, live: bool, base: nat)

  /** Where a Courier Key write stands: about to read, about to post over what it read, or over. */
  datatype Phase =
    | Reading(write: Write, posts: nat)
    | Posting(write: Write, posts: nat, seen: Seen)
    | Ended(write: Write, posts: nat, outcome: Outcome)

  /** Who wrote a version: a Courier Key write, after what it read, or another client. */
  datatype Author = Courier(w: nat, write: Write, seen: Seen) | Foreign

  const CAS_RETRIES := 3

  /** The fields just before the i-th version of a record that began at base; none before its first. */
  function Before(versions: seq<Version>, base: nat, i: nat): Fields
    requires i <= |versions|
  {
    if i <= base then map[] else versions[i - 1].fields
  }

  /** The fields a version replaced. */
  function Replaced(versions: seq<Version>, i: nat): Fields
    requires i < |versions|
  {
    Before(versions, versions[i].base, i)
  }

  /** What a write of one field makes of the version before it. */
  ghost predicate ChangesOnly(before: Fields, after: Fields, write: Write) {
    after == before[write.field := write.value]
  }

  /** The write made the i-th version of the one just before it, and of nothing else. */
  ghost predicate Keeps(versions: seq<Version>, i: nat, write: Write)
    requires i < |versions|
  {
    ChangesOnly(Replaced(versions, i), versions[i].fields, write)
  }

  /** When it does: the record is the one read, and was live then or had no other field; or it is
      another one, which happens to agree with the one read in every other field. */
  ghost predicate ReadWell(versions: seq<Version>, i: nat, a: Author)
    requires i < |versions| && a.Courier?
  {
    if a.seen.base == versions[i].base then a.seen.live || Replaced(versions, i).Keys <= {a.write.field}
    else a.seen.fields - {a.write.field} == Replaced(versions, i) - {a.write.field}
  }

  /* ----- the invariant ----- */

  /** A read showed what was there, or nothing while that was deleted. */
  ghost predicate SeenOk(versions: seq<Version>, s: Seen) {
    s.base + s.number <= |versions| && s.fields == if s.live then Before(versions, s.base, s.base + s.number) else map[]
  }

  /** A writer has posted no more often than it may. */
  ghost predicate PhaseOk(versions: seq<Version>, p: Phase) {
    match p
    case Reading(_, posts) => posts <= CAS_RETRIES
    case Posting(_, posts, seen) => posts <= CAS_RETRIES && SeenOk(versions, seen)
    case Ended(_, posts, outcome) => posts <= CAS_RETRIES + 1 && (outcome == CasFailed ==> posts == CAS_RETRIES + 1)
  }

  ghost predicate PhasesOk(versions: seq<Version>, writers: map<nat, Phase>) {
    forall w :: w in writers ==> PhaseOk(versions, writers[w])
  }

  /** A version a Courier Key write made is what it read with its field set, under the number it read. */
  ghost predicate LandedAt(versions: seq<Version>, i: nat, a: Author)
    requires i < |versions|
  {
    && versions[i].base <= i
    && (a.Courier? ==>
          && SeenOk(versions, a.seen) && a.seen.number == i - versions[i].base
          && ChangesOnly(a.seen.fields, versions[i].fields, a.write))
  }

  ghost predicate LandedOk(versions: seq<Version>, authors: seq<Author>) {
    |authors| == |versions| && forall i :: 0 <= i < |authors| ==> LandedAt(versions, i, authors[i])
  }

  ghost predicate IsBy(authors: seq<Author>, i: int, w: int) { 0 <= i < |authors| && authors[i].Courier? && authors[i].w == w }

  /** A write lands at most once; one that landed is over, and not with a check-and-set failure; one
      that reports success landed. */
  ghost predicate OnceOk(writers: map<nat, Phase>, authors: seq<Author>) {
    && (forall i, w :: IsBy(authors, i, w) ==>
          w in writers && writers[w].Ended? && writers[w].write == authors[i].write && writers[w].outcome != CasFailed)
    && (forall i, j, w :: IsBy(authors, i, w) && IsBy(authors, j, w) ==> i == j)
    && (forall w :: w in writers && writers[w].Ended? && writers[w].outcome == Written ==> exists i :: IsBy(authors, i, w))
  }

  /** While nothing was ever deleted or removed there is one record, and every read found it live. */
  ghost predicate LiveOk(versions: seq<Version>, base: nat, writers: map<nat, Phase>, authors: seq<Author>) {
    && base == 0 && (forall i :: 0 <= i < |versions| ==> versions[i].base == 0)
    && (forall w :: w in writers && writers[w].Posting? ==> writers[w].seen.live && writers[w].seen.base == 0)
    && (forall i :: 0 <= i < |authors| && authors[i].Courier? ==> authors[i].seen.live && authors[i].seen.base == 0)
  }

  /* ----- what each step keeps ----- */

  lemma SeenStays(versions: seq<Version>, more: seq<Version>, s: Seen)
    requires SeenOk(versions, s)
    ensures SeenOk(versions + more, s)
  {
  }

  lemma PhasesStay(versions: seq<Version>, more: seq<Version>, writers: map<nat, Phase>)
    requires PhasesOk(versions, writers)
    ensures PhasesOk(versions + more, writers)
  {
    hide SeenOk;
    forall w | w in writers
      ensures PhaseOk(versions + more, writers[w])
    {
      assert PhaseOk(versions, writers[w]);
      if writers[w].Posting? {
        SeenStays(versions, more, writers[w].seen);
      }
    }
  }

  lemma LandedMore(versions: seq<Version>, authors: seq<Author>, v: Version, a: Author)
    requires LandedOk(versions, authors) && v.base <= |versions|
    requires a.Courier? ==>
               && SeenOk(versions, a.seen) && a.seen.number == |versions| - v.base && ChangesOnly(a.seen.fields, v.fields, a.write)
    ensures LandedOk(versions + [v], authors + [a])
  {
    hide SeenOk;
    var vs, bs := versions + [v], authors + [a];
    forall i | 0 <= i < |bs|
      ensures LandedAt(vs, i, bs[i])
    {
      if i < |authors| {
        assert LandedAt(versions, i, authors[i]) && bs[i] == authors[i] && vs[i] == versions[i];
      }
      if bs[i].Courier? {
        SeenStays(versions, [v], bs[i].seen);
      }
    }
  }

  lemma OnceStays(writers: map<nat, Phase>, authors: seq<Author>, w: nat, p: Phase)
    requires OnceOk(writers, authors) && !(w in writers && writers[w].Ended?)
    requires p.Ended? ==> p.outcome != Written
    ensures OnceOk(writers[w := p], authors)
  {
  }

  lemma OnceForeign(writers: map<nat, Phase>, authors: seq<Author>)
    requires OnceOk(writers, authors)
    ensures OnceOk(writers, authors + [Foreign])
  {
    forall i, w | IsBy(authors + [Foreign], i, w)
      ensures IsBy(authors, i, w)
    {
    }
    forall v | v in writers && writers[v].Ended? && writers[v].outcome == Written
      ensures exists i :: IsBy(authors + [Foreign], i, v)
    {
      var i :| IsBy(authors, i, v);
      assert IsBy(authors + [Foreign], i, v);
    }
  }

  lemma OnceLanded(writers: map<nat, Phase>, authors: seq<Author>, w: nat, p: Phase, seen: Seen)
    requires OnceOk(writers, authors) && !(w in writers && writers[w].Ended?)
    requires p.Ended? && p.outcome != CasFailed
    ensures OnceOk(writers[w := p], authors + [Courier(w, p.write, seen)])
  {
    var bs := authors + [Courier(w, p.write, seen)];
    forall i, v | IsBy(bs, i, v)
      ensures (i < |authors| && IsBy(authors, i, v) && v != w) || (i == |authors| && v == w)
    {
      if i < |authors| {
        assert IsBy(authors, i, v);
      }
    }
    assert IsBy(bs, |authors|, w);
    forall v | v in writers && v != w && writers[v].Ended? && writers[v].outcome == Written
      ensures exists i :: IsBy(bs, i, v)
    {
      var i :| IsBy(authors, i, v);
      assert IsBy(bs, i, v);
    }
  }

  /** A KV v2 record at the server, and the Courier Key writes to it under way. */
  class Record {
    /** Every version ever, oldest first; where the record there is now began; and whether its last
        version is deleted.  Its version numbers count from 1; no version at all is version 0. */
    var versions: seq<Version>
    var base: nat
    var deleted: bool
    var writers: map<nat, Phase>
    /** History: who wrote each version, and whether anything was ever deleted or removed. */
    ghost var authors: seq<Author>
    ghost var everDeleted: bool

    ghost predicate Valid()
      reads this
    {
      && base <= |versions|
      && PhasesOk(versions, writers) && LandedOk(versions, authors) && OnceOk(writers, authors)
      && (!everDeleted ==> !deleted && LiveOk(versions, base, writers, authors))
    }

    constructor (initial: seq<Fields>)
      ensures Valid() && base == 0 && !deleted && !everDeleted && writers == map[]
      ensures |versions| == |initial| && forall i :: 0 <= i < |initial| ==> versions[i] == Version(initial[i], 0)
      ensures authors == seq(|initial|, _ => Foreign)
    {
      versions := seq(|initial|, i requires 0 <= i < |initial| => Version(initial[i], 0));
      base, deleted, writers, everDeleted := 0, false, map[], false;
      authors := seq(|initial|, _ => Foreign);
    }

    /** What a read shows now. */
    function Look(): Seen
      requires base <= |versions|
      reads this
    {
      Seen(if deleted then map[] else Before(versions, base, |versions|), |versions| - base, !deleted, base)
    }

    /** A Courier Key write begins. */
    method Begin(w: nat, write: Write)
      requires Valid() && w !in writers
      modifies `writers
      ensures Valid() && writers == old(writers)[w := Reading(write, 0)]
    {
      hide LandedOk, OnceOk;
      OnceStays(writers, authors, w, Reading(write, 0));
      writers := writers[w := Reading(write, 0)];
    }

    /** Its read: the fields visible, and the version; or the read fails and it is over. */
    method Read(w: nat, answered: bool)
      requires Valid() && w in writers && writers[w].Reading?
      modifies `writers
      ensures Valid()
      ensures var p := old(writers[w]);
              writers == old(writers)[w := if answered then Posting(p.write, p.posts, Look()) else Ended(p.write, p.posts, Failed)]
    {
      hide LandedOk, OnceOk;
      var p := writers[w];
      assert PhaseOk(versions, p);
      var q := if answered then Posting(p.write, p.posts, Look()) else Ended(p.write, p.posts, Failed);
      OnceStays(writers, authors, w, q);
      writers := writers[w := q];
    }

    /** Its post: the server refuses it, finds another version than the one read, or adds a version;
        and its answer may get lost.  After a mismatch it reads again, three times at most. */
    method Post(w: nat, refused: bool, lost: bool) returns (applied: bool)
      requires Valid() && w in writers && writers[w].Posting?
      modifies `versions, `deleted, `writers, `authors
      ensures Valid()
      ensures var p := old(writers[w]);
              && applied == (!refused && p.seen.number == |old(versions)| - base)
              && versions == (if applied then old(versions) + [Version(p.seen.fields[p.write.field := p.write.value], base)] else old(versions))
              && authors == (if applied then old(authors) + [Courier(w, p.write, p.seen)] else old(authors))
              && deleted == (old(deleted) && !applied)
              && writers == old(writers)[w :=
                   if lost || refused then Ended(p.write, p.posts + 1, Failed)
                   else if applied then Ended(p.write, p.posts + 1, Written)
                   else if p.posts < 3 then Reading(p.write, p.posts + 1)
                   else Ended(p.write, p.posts + 1, CasFailed)]
    {
      var p := writers[w];
      applied := !refused && p.seen.number == |versions| - base;
      var q := AfterPost(p, refused, lost, applied);
      assert PhaseOk(versions, p) && PhaseOk(versions, q);
      hide LandedOk, OnceOk, SeenOk;
      if applied {
        var v := Version(p.seen.fields[p.write.field := p.write.value], base);
        LandedMore(versions, authors, v, Courier(w, p.write, p.seen));
        OnceLanded(writers, authors, w, q, p.seen);
        PhasesStay(versions, [v], writers);
        versions, deleted, authors := versions + [v], false, authors + [Courier(w, p.write, p.seen)];
      } else {
        OnceStays(writers, authors, w, q);
      }
      writers := writers[w := q];
    }

    static function AfterPost(p: Phase, refused: bool, lost: bool, applied: bool): Phase
      requires p.Posting?
    {
      if lost then Ended(p.write, p.posts + 1, Failed)
      else if applied then Ended(p.write, p.posts + 1, Written)
      else if refused then Ended(p.write, p.posts + 1, Failed)
      else if p.posts < CAS_RETRIES then Reading(p.write, p.posts + 1)
      else Ended(p.write, p.posts + 1, CasFailed)
    }

    /** Another client writes a version of its own. */
    method WriteOther(fields: Fields)
      requires Valid()
      modifies `versions, `deleted, `authors
      ensures Valid() && versions == old(versions) + [Version(fields, base)] && authors == old(authors) + [Foreign] && !deleted
    {
      PhasesStay(versions, [Version(fields, base)], writers);
      LandedMore(versions, authors, Version(fields, base), Foreign);
      OnceForeign(writers, authors);
      hide LandedOk, OnceOk, PhasesOk;
      versions, deleted, authors := versions + [Version(fields, base)], false, authors + [Foreign];
    }

    /** Another client deletes the last version, or undeletes it. */
    method Delete(gone: bool)
      requires Valid()
      modifies `deleted, `everDeleted
      ensures Valid() && deleted == gone && everDeleted == (old(everDeleted) || gone)
    {
      deleted, everDeleted := gone, everDeleted || gone;
    }

    /** Another client removes the record, versions, metadata and all. */
    method Remove()
      requires Valid()
      modifies `base, `deleted, `everDeleted
      ensures Valid() && base == |versions| && !deleted && everDeleted
    {
      base, deleted, everDeleted := |versions|, false, true;
    }

    /** What others leave alone: history, and the Courier Key writes in `mine`. */
    twostate predicate Apart(mine: set<nat>, clients: bool)
      reads this
    {
      && old(versions) <= versions && old(authors) <= authors
      && (forall m :: m in mine ==> (m in old(writers) <==> m in writers) && (m in writers ==> writers[m] == old(writers)[m]))
      && (forall i :: |old(authors)| <= i < |authors| ==>
            (authors[i].Courier? ==> authors[i].w !in mine) && (authors[i].Foreign? ==> clients))
      && (!clients ==> everDeleted == old(everDeleted))
    }

    /** One step of any Courier Key write not in `mine`, or of another client if there are any. */
    method Step(mine: set<nat>, clients: bool)
      requires Valid()
      modifies this
      ensures Valid() && Apart(mine, clients)
    {
      hide PhasesOk, LandedOk, OnceOk, LiveOk;
      var step: int, w: nat, write: Write, fields: Fields := *, *, *, *;
      var yes: bool, lost: bool := *, *;
      match step {
        case 0 => if w !in mine && w !in writers { Begin(w, write); }
        case 1 => if w !in mine && w in writers && writers[w].Reading? { Read(w, yes); }
        case 2 => if w !in mine && w in writers && writers[w].Posting? { var _ := Post(w, yes, lost); }
        case 3 => if clients { WriteOther(fields); }
        case 4 => if clients { Delete(yes); }
        case _ => if clients { Remove(); }
      }
    }

    /** Any number of such steps. */
    method Others(mine: set<nat>, clients: bool, fuel: nat)
      requires Valid()
      modifies this
      ensures Valid() && Apart(mine, clients)
      ensures fuel == 0 ==> unchanged(this)
    {
      hide PhasesOk, LandedOk, OnceOk, LiveOk;
      for k := 0 to fuel
        invariant Valid() && Apart(mine, clients) && (k == 0 ==> unchanged(this))
      {
        Step(mine, clients);
      }
    }

    /** The loop, with anything others do before each of its calls.  It posts at most four times and
        lands at most once; a write that reports success landed, and one that reports a check-and-set
        failure did not.  Where it landed it kept the other fields of the version it replaced exactly
        if it had read well: the same record, live then or with no other field, or one that agrees.
        `reliable` says that the server answers every read, and refuses and loses no post; then only four
        mismatches in a row keep the write from landing, and with nobody else about there is none. */
    method WriteCourierKey(w: nat, write: Write, clients: bool, fuel: nat, reliable: bool)
      returns (outcome: Outcome, ghost mismatches: nat)
      requires Valid() && w !in writers
      modifies this
      ensures Valid() && old(versions) <= versions
      ensures w in writers && writers[w].Ended? && writers[w].outcome == outcome && writers[w].posts <= CAS_RETRIES + 1
      ensures outcome == Written ==> exists i :: IsBy(authors, i, w)
      ensures outcome == CasFailed ==> writers[w].posts == CAS_RETRIES + 1 && forall i :: !IsBy(authors, i, w)
      ensures forall i, j :: IsBy(authors, i, w) && IsBy(authors, j, w) ==> i == j
      ensures forall i :: IsBy(authors, i, w) ==>
                && |old(versions)| <= i < |versions| && authors[i].write == write
                && (Keeps(versions, i, write) <==> ReadWell(versions, i, authors[i]))
      ensures !clients && !old(everDeleted) ==> forall i :: IsBy(authors, i, w) ==> i < |versions| && Keeps(versions, i, write)
      ensures reliable ==> mismatches <= 4 && outcome == if mismatches < 4 then Written else CasFailed
      ensures outcome == Written ==> writers[w].posts == mismatches + 1
      ensures fuel == 0 ==> mismatches == 0
    {
      hide PhasesOk, LandedOk, LiveOk, OnceOk;
      Begin(w, write);
      mismatches := 0;
      while true
        invariant Valid() && w in writers && writers[w].Reading? && writers[w].write == write && writers[w].posts <= CAS_RETRIES
        invariant old(versions) <= versions && old(authors) <= authors
        invariant !clients ==> everDeleted == old(everDeleted)
        invariant mismatches == writers[w].posts && (fuel == 0 ==> mismatches == 0)
        decreases CAS_RETRIES - writers[w].posts
      {
        var mismatch := Attempt(w, clients, fuel, reliable);
        mismatches := if mismatch then mismatches + 1 else mismatches;
        if writers[w].Ended? {
          Landings(versions, base, writers, authors, old(versions), old(writers), old(authors), w, everDeleted);
          return writers[w].outcome, mismatches;
        }
      }
    }

    /** One round of it: a read and a post, and whether the version had changed in between. */
    method Attempt(w: nat, clients: bool, fuel: nat, reliable: bool) returns (mismatch: bool)
      requires Valid() && w in writers && writers[w].Reading? && writers[w].posts <= CAS_RETRIES
      modifies this
      ensures Valid() && old(versions) <= versions && old(authors) <= authors && (!clients ==> everDeleted == old(everDeleted))
      ensures w in writers && writers[w].write == old(writers[w].write)
      ensures fuel == 0 ==> !mismatch
      ensures var n := old(writers[w].posts) + 1;
              if mismatch then writers[w].posts == n && (if n <= 3 then writers[w].Reading? else writers[w] == Ended(writers[w].write, n, CasFailed))
              else && writers[w].Ended? && (reliable ==> writers[w].outcome == Written)
                   && writers[w].outcome != CasFailed && (writers[w].outcome == Written ==> writers[w].posts == n)
    {
      hide PhasesOk, LandedOk, LiveOk, OnceOk;
      Others({w}, clients, fuel);
      var answered: bool, refused: bool, lost: bool := *, *, *;
      if reliable {
        answered, refused, lost := true, false, false;
      }
      Read(w, answered);
      mismatch := false;
      if answered {
        Others({w}, clients, fuel);
        var applied := Post(w, refused, lost);
        mismatch := !applied && !refused && !lost;
      }
    }
  }

  /** What the invariant says of one write that is over. */
  lemma Landings(versions: seq<Version>, base: nat, writers: map<nat, Phase>, authors: seq<Author>, versions0: seq<Version>,
                 writers0: map<nat, Phase>, authors0: seq<Author>, w: nat, everDeleted: bool)
    requires PhasesOk(versions, writers) && LandedOk(versions, authors) && OnceOk(writers, authors)
    requires OnceOk(writers0, authors0) && w !in writers0 && authors0 <= authors && LandedOk(versions0, authors0)
    requires w in writers && writers[w].Ended?
    requires !everDeleted ==> LiveOk(versions, base, writers, authors)
    ensures writers[w].posts <= CAS_RETRIES + 1
    ensures writers[w].outcome == CasFailed ==> writers[w].posts == CAS_RETRIES + 1 && forall i :: !IsBy(authors, i, w)
    ensures writers[w].outcome == Written ==> exists i :: IsBy(authors, i, w)
    ensures forall i, j :: IsBy(authors, i, w) && IsBy(authors, j, w) ==> i == j
    ensures forall i :: IsBy(authors, i, w) ==>
              && |versions0| <= i < |versions| && authors[i].write == writers[w].write
              && (Keeps(versions, i, authors[i].write) <==> ReadWell(versions, i, authors[i]))
              && (!everDeleted ==> ReadWell(versions, i, authors[i]))
  {
    assert PhaseOk(versions, writers[w]);
    hide PhasesOk, PhaseOk, LandedAt;
    forall i | IsBy(authors, i, w)
      ensures && |versions0| <= i < |versions| && authors[i].write == writers[w].write
              && (Keeps(versions, i, authors[i].write) <==> ReadWell(versions, i, authors[i]))
              && (!everDeleted ==> ReadWell(versions, i, authors[i]))
    {
      assert i < |authors0| ==> IsBy(authors0, i, w);
      KeptWhenReadWell(versions, i, authors[i]);
    }
  }

  /** The check-and-set compares version numbers only.  So a version read as deleted and undeleted
      before the post loses what it held, and so does a record made anew up to the number read. */
  lemma KeptWhenReadWell(versions: seq<Version>, i: nat, a: Author)
    requires i < |versions| && a.Courier? && LandedAt(versions, i, a)
    ensures Keeps(versions, i, a.write) <==> ReadWell(versions, i, a)
  {
    SetAlike(a.seen.fields, Replaced(versions, i), a.write);
    var held, f := Replaced(versions, i), a.write.field;
    if a.seen.base == versions[i].base && !a.seen.live {
      assert a.seen.fields == map[] && a.seen.fields - {f} == map[];
      assert (held - {f}).Keys == held.Keys - {f};
      assert held.Keys <= {f} <==> (held - {f}).Keys == {};
      NoKeys(held - {f});
    }
  }

  lemma NoKeys(m: Fields)
    ensures m == map[] <==> m.Keys == {}
  {
    assert m.Keys == {} ==> forall k :: k in m ==> k in m.Keys;
  }

  /** Setting one field makes two maps the same exactly when they agreed in all others. */
  lemma SetAlike(x: Fields, y: Fields, write: Write)
    ensures x[write.field := write.value] == y[write.field := write.value] <==> x - {write.field} == y - {write.field}
  {
    var f, x', y' := write.field, x[write.field := write.value], y[write.field := write.value];
    assert x' - {f} == x - {f} && y' - {f} == y - {f};
    assert x' == (x - {f})[f := write.value] && y' == (y - {f})[f := write.value];
  }

  /* ----- no update is lost ----- */

  /** The last value a Courier Key write gave the field, if any. */
  ghost function LastValue(authors: seq<Author>, field: string): Option<string> {
    if authors == [] then None else
      var a := authors[|authors| - 1];
      if a.Courier? && a.write.field == field then Some(a.write.value) else LastValue(authors[..|authors| - 1], field)
  }

  /** The field holds the last value written to it since version n, or what it held then. */
  ghost predicate Kept(versions: seq<Version>, authors: seq<Author>, base: nat, n: nat, field: string)
    requires n <= |authors| == |versions|
  {
    var start, end := Before(versions, base, n), Before(versions, base, |versions|);
    match LastValue(authors[n..], field)
    case Some(v) => field in end && end[field] == v
    case None => (field in end <==> field in start) && (field in start ==> end[field] == start[field])
  }

  lemma KeptMore(versions: seq<Version>, authors: seq<Author>, base: nat, n: nat, field: string)
    requires base <= n < |versions| == |authors| && Kept(versions[..|versions| - 1], authors[..|versions| - 1], base, n, field)
    requires var k := |versions| - 1; versions[k].base == base && authors[k].Courier? && Keeps(versions, k, authors[k].write)
    ensures Kept(versions, authors, base, n, field)
  {
    var k := |versions| - 1;
    assert Before(versions[..k], base, n) == Before(versions, base, n) && Before(versions[..k], base, k) == Before(versions, base, k);
    assert authors[n..][..k - n] == authors[..k][n..] && authors[n..][k - n] == authors[k];
  }

  /** Where every version since the n-th is a Courier Key write to one record that kept the version before. */
  lemma {:induction false} NoUpdateIsLost(versions: seq<Version>, authors: seq<Author>, base: nat, n: nat, field: string)
    requires |authors| == |versions| && base <= n <= |versions|
    requires forall i :: n <= i < |authors| ==>
               versions[i].base == base && authors[i].Courier? && Keeps(versions, i, authors[i].write)
    ensures Kept(versions, authors, base, n, field)
  {
    if n < |versions| {
      var k := |versions| - 1;
      forall i | n <= i < k
        ensures Keeps(versions[..k], i, authors[..k][i].write)
      {
        assert Keeps(versions, i, authors[i].write);
      }
      hide Kept;
      NoUpdateIsLost(versions[..k], authors[..k], base, n, field);
      KeptMore(versions, authors, base, n, field);
    } else {
      assert authors[n..] == [];
    }
  }

  /** Every run of any number of Courier Key writes to one record, and of other clients if there are
      any: each version one of the writes made kept the other fields of the version before exactly if
      it had read well; and with no other clients the record ends with the last value written to each
      field, and every other field as it was. */
  method Race(initial: seq<Fields>, clients: bool, fuel: nat) returns (rec: Record)
    ensures rec.Valid() && |initial| <= |rec.versions| && forall i :: 0 <= i < |initial| ==> rec.versions[i].fields == initial[i]
    ensures |rec.authors| == |rec.versions|
    ensures forall i :: |initial| <= i < |rec.authors| && rec.authors[i].Courier? ==>
              (Keeps(rec.versions, i, rec.authors[i].write) <==> ReadWell(rec.versions, i, rec.authors[i]))
    ensures !clients ==> forall field :: Kept(rec.versions, rec.authors, 0, |initial|, field)
    // Each version is the one before it with the one field of its write set.
    ensures !clients ==> forall i {:trigger rec.authors[i]} :: |initial| <= i < |rec.versions| ==>
              && rec.authors[i].Courier?
              && rec.versions[i].fields ==
                 (if i == 0 then map[] else rec.versions[i - 1].fields)[rec.authors[i].write.field := rec.authors[i].write.value]
  {
    hide PhasesOk, OnceOk, LandedAt, Keeps, ReadWell, Kept;
    rec := new Record(initial);
    rec.Others({}, clients, fuel);
    forall i | |initial| <= i < |rec.authors| && rec.authors[i].Courier?
      ensures Keeps(rec.versions, i, rec.authors[i].write) <==> ReadWell(rec.versions, i, rec.authors[i])
    {
      KeptWhenReadWell(rec.versions, i, rec.authors[i]);
    }
    if !clients {
      AllReadWell(rec.versions, rec.base, rec.writers, rec.authors);
      EachSetsOneField(rec.versions, rec.authors, |initial|);
      forall field
        ensures Kept(rec.versions, rec.authors, 0, |initial|, field)
      {
        NoUpdateIsLost(rec.versions, rec.authors, 0, |initial|, field);
      }
    }
  }

  lemma EachSetsOneField(versions: seq<Version>, authors: seq<Author>, n: nat)
    requires |authors| == |versions|
    requires forall i :: n <= i < |authors| ==> versions[i].base == 0 && authors[i].Courier? && Keeps(versions, i, authors[i].write)
    ensures forall i {:trigger authors[i]} :: n <= i < |versions| ==>
              && authors[i].Courier?
              && versions[i].fields == (if i == 0 then map[] else versions[i - 1].fields)[authors[i].write.field := authors[i].write.value]
  {
    forall i | n <= i < |versions|
      ensures versions[i].fields == (if i == 0 then map[] else versions[i - 1].fields)[authors[i].write.field := authors[i].write.value]
    {
      assert Keeps(versions, i, authors[i].write);
    }
  }

  lemma AllReadWell(versions: seq<Version>, base: nat, writers: map<nat, Phase>, authors: seq<Author>)
    requires LiveOk(versions, base, writers, authors) && |authors| == |versions|
    ensures forall i :: 0 <= i < |authors| && authors[i].Courier? ==> ReadWell(versions, i, authors[i])
  {
  }

  /** The condition is needed.  A record is deleted, read as having no fields, undeleted, and posted
      to at the version read: the post succeeds, and the field it held is gone. */
  method UndeleteLosesAField(held: Write, write: Write) returns (rec: Record)
    requires held.field != write.field
    ensures 0 in rec.writers && rec.writers[0] == Ended(write, 1, Written)
    ensures |rec.versions| == 2 && rec.versions[0].fields == map[held.field := held.value] && !rec.deleted
    ensures rec.versions[1] == Version(map[write.field := write.value], rec.versions[0].base)
  {
    hide PhasesOk, LandedOk, OnceOk, LiveOk;
    rec := new Record([map[held.field := held.value]]);
    rec.Begin(0, write);
    rec.Delete(true);
    rec.Read(0, true);
    rec.Delete(false);
    var applied := rec.Post(0, false, false);
  }

  /** And so is the other one.  A record is read at its first version, removed, and made anew by another
      client with a field of its own; the post at that number succeeds, and the new field is gone. */
  method RemovalLosesAField(first: Fields, held: Write, write: Write) returns (rec: Record)
    requires held.field != write.field && held.field !in first
    ensures 0 in rec.writers && rec.writers[0] == Ended(write, 1, Written)
    ensures |rec.versions| == 3 && rec.versions[1] == Version(map[held.field := held.value], 1) && !rec.deleted
    ensures rec.versions[2] == Version(first[write.field := write.value], 1) && held.field !in rec.versions[2].fields
  {
    hide PhasesOk, LandedOk, OnceOk, LiveOk;
    rec := new Record([first]);
    rec.Begin(0, write);
    rec.Read(0, true);
    rec.Remove();
    rec.WriteOther(map[held.field := held.value]);
    var applied := rec.Post(0, false, false);
  }
}
