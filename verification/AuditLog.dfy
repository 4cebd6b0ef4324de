/** The audit log (internal/audit/audit.go): records appended in order, kept in memory while they
    cannot be stored, hash-chained, and covered by signed checkpoints.

    Storage, signing, and the clock answer as they like (`*`).  An outside editor may put anything
    in the tables at any moment, whoever holds the log's lock: between any two statements of the log
    on the tables, and between a signature and the INSERT of its checkpoint.  Each public method is
    one section under that lock. */
module AuditLog {
  import opened Basics
  import opened AuditFormat
  import opened AuditVerify

  /** A record to be stored, stamped with the time of its Append. */
  datatype Pending = Pending(r: Record, ms: int)

  /** The SQLite tables, which outlive the process. */
  class Db {
    var records: Records
    var checkpoints: Checkpoints

    constructor () ensures records == map[] && checkpoints == map[] {
      records, checkpoints := map[], map[];
    }
  }

  /** One use of the audit signing key: the checkpoint signed, the rows in the table at that moment,
      and whether the tables were then just as the log had left them. */
  datatype Signing = Signing(seqNo: int, prevSeq: int, ms: int, head: Bytes, rows: Records, untouched: bool)

  /** The audit signing key, with what it has signed, and whether anyone has put a signature into
      the tables that verifies and that it never made. */
  class Key {
    const verify: Verifier
    ghost var signed: seq<Signing>
    ghost var forged: bool

    constructor (v: Verifier)
      ensures verify == v && signed == [] && !forged
    {
      verify, signed, forged := v, [], false;
    }
  }

  /** Signed over untouched tables, a checkpoint was signed over rows that chain up to its head. */
  ghost predicate SignedWell(c: Codec, g: Signing) {
    g.untouched ==> IntactTo(c, g.rows, g.seqNo, g.head)
  }

  /** The key signed exactly the message that `cp` at record `k` stands for. */
  ghost predicate WasSigned(signed: seq<Signing>, k: int, cp: Checkpoint) {
    exists i :: 0 <= i < |signed| && SignsFor(signed[i], k, cp)
  }

  ghost predicate SignsFor(g: Signing, k: int, cp: Checkpoint) {
    Message(g.seqNo, g.prevSeq, g.ms, g.head) == Message(k, cp.prevSeq, cp.ms, cp.head)
  }

  /** Signatures cannot be forged: one in the table that verifies was made by the key. */
  ghost predicate Unforged(verify: Verifier, cps: Checkpoints, signed: seq<Signing>) {
    forall k :: k in cps && verify(k, cps[k]) ==> WasSigned(signed, k, cps[k])
  }

  ghost predicate Extends<T>(a: map<int, T>, b: map<int, T>) {
    forall k :: k in a ==> k in b && b[k] == a[k]
  }

  /** Only checkpoints past record n were added. */
  ghost predicate Grew(a: Checkpoints, b: Checkpoints, n: int) {
    Extends(a, b) && forall k :: k in b ==> k in a || n < k
  }

  ghost predicate IsLast(cps: Checkpoints, cpSeq: int) {
    0 <= cpSeq && (cpSeq == 0 || cpSeq in cps) && forall k :: k in cps ==> k <= cpSeq
  }

  function StatusColumn(status: int): Option<int> { if status != 0 then Some(status) else None }

  ghost predicate RowHolds(row: Row, p: Pending) {
    row.ms == p.ms && row.fields == p.r.fields && row.status == StatusColumn(p.r.upstreamStatus)
  }

  ghost predicate EndsAt(t: Records, n: int) { forall k :: k in t ==> k <= n }

  /** The rows after `base` hold exactly the pending records `ps`, in order. */
  ghost predicate RowsHold(t: Records, base: int, ps: seq<Pending>) {
    forall i :: base < i <= base + |ps| ==> i in t && RowHolds(t[i], ps[i - base - 1])
  }

  /** The entries of the records ps, in order, as one linked run. */
  ghost predicate IsRun(c: Codec, base: int, h: Bytes, ps: seq<Pending>, es: seq<Entry>) {
    && |es| == |ps| && c.IsLinked(base, h, es)
    && forall i :: 0 <= i < |es| ==> es[i] == c.NewEntry(base + i + 1, ps[i].ms, ps[i].r, es[i].prevHash)
  }

  lemma RunExtends(c: Codec, base: int, h: Bytes, ps: seq<Pending>, es: seq<Entry>, p: Pending)
    requires IsRun(c, base, h, ps, es)
    ensures var e := c.NewEntry(base + |ps| + 1, p.ms, p.r, c.LinkHead(h, es));
            IsRun(c, base, h, ps + [p], es + [e]) && c.LinkHead(h, es + [e]) == c.sha(e)
  {
    LinkExtend(c, base, h, es, c.NewEntry(base + |ps| + 1, p.ms, p.r, c.LinkHead(h, es)));
  }

  /** The tables as this log alone leaves them. */
  ghost predicate HonestTables(c: Codec, verify: Verifier, t: Records, cps: Checkpoints, n: int, head: Bytes, cpSeq: int) {
    && HonestRecords(c, t) && n == |t| && head == HashAt(c, t, n)
    && HonestCheckpoints(verify, t, cps) && IsLast(cps, cpSeq)
  }

  ghost predicate Untouched(c: Codec, verify: Verifier, t: Records, cps: Checkpoints) {
    exists n, h, cp :: HonestTables(c, verify, t, cps, n, h, cp)
  }

  /** What the steps of the log leave behind: the tables, the last checkpoint, what was signed. */
  datatype World = World(records: Records, checkpoints: Checkpoints, cpSeq: int, signed: seq<Signing>)

  /** A signing made between two moments: over rows there by then. */
  ghost predicate SignedBetween(c: Codec, a: Records, b: Records, g: Signing) {
    SignedWell(c, g) && Extends(a, g.rows) && Extends(g.rows, b)
  }

  /** Rows are only added, checkpoints only past the last one, each signing is over the rows of its
      moment, and nothing is forged. */
  ghost predicate Later(c: Codec, verify: Verifier, a: World, b: World) {
    && Extends(a.records, b.records)
    && Grew(a.checkpoints, b.checkpoints, a.cpSeq) && a.cpSeq <= b.cpSeq
    && a.signed <= b.signed
    && (forall i :: |a.signed| <= i < |b.signed| ==> SignedBetween(c, a.records, b.records, b.signed[i]))
    && (Unforged(verify, a.checkpoints, a.signed) ==> Unforged(verify, b.checkpoints, b.signed))
  }

  lemma LaterIsReflexive(c: Codec, verify: Verifier, a: World)
    ensures Later(c, verify, a, a)
  {
  }

  lemma SignedBetweenMore(c: Codec, a: Records, a': Records, b: Records, b': Records, g: Signing)
    requires SignedBetween(c, a', b, g) && Extends(a, a') && Extends(b, b')
    ensures SignedBetween(c, a, b', g)
  {
  }

  lemma LaterIsTransitive(c: Codec, verify: Verifier, a: World, b: World, d: World)
    requires Later(c, verify, a, b) && Later(c, verify, b, d)
    ensures Later(c, verify, a, d)
  {
    hide SignedBetween, Unforged;
    forall k | k in d.checkpoints
      ensures k in a.checkpoints || a.cpSeq < k
    {
      if k in b.checkpoints {}
    }
    forall i | |a.signed| <= i < |d.signed|
      ensures SignedBetween(c, a.records, d.records, d.signed[i])
    {
      if i < |b.signed| {
        assert d.signed[i] == b.signed[i];
        SignedBetweenMore(c, a.records, a.records, b.records, d.records, b.signed[i]);
      } else {
        SignedBetweenMore(c, a.records, b.records, d.records, d.records, d.signed[i]);
      }
    }
  }

  /** What holds of the signing history through every step of the log and every edit. */
  ghost predicate History(c: Codec, verify: Verifier, cps: Checkpoints, signed: seq<Signing>, forged: bool) {
    && (forall i :: 0 <= i < |signed| ==> SignedWell(c, signed[i]))
    && (forged || Unforged(verify, cps, signed))
  }

  lemma HistoryLater(c: Codec, verify: Verifier, a: World, b: World, forged: bool)
    requires Later(c, verify, a, b) && History(c, verify, a.checkpoints, a.signed, forged)
    ensures History(c, verify, b.checkpoints, b.signed, forged)
  {
    hide Unforged, SignedWell;
    forall i | 0 <= i < |b.signed|
      ensures SignedWell(c, b.signed[i])
    {
      if i < |a.signed| {
        assert b.signed[i] == a.signed[i];
      } else {
        assert SignedBetween(c, a.records, b.records, b.signed[i]);
      }
    }
  }

  /** Between two moments one checkpoint was signed: of the head, over the rows, naming the one before. */
  ghost predicate SignedOne(before: seq<Signing>, after: seq<Signing>, n: int, prev: int, head: Bytes, rows: Records,
                            untouched: bool, cp: Checkpoint) {
    cp.prevSeq == prev && cp.head == head && after == before + [Signing(n, prev, cp.ms, head, rows, untouched)]
  }

  /** Between two moments nothing was signed. */
  ghost predicate SignedNothing(a: World, b: World) {
    b.cpSeq == a.cpSeq && b.checkpoints == a.checkpoints && b.signed == a.signed
  }

  /** Anyone else writes to the tables.  What they write may hold a signature the key never made. */
  method Edit(db: Db, key: Key, records: Records, checkpoints: Checkpoints)
    modifies db, key`forged
    ensures db.records == records && db.checkpoints == checkpoints
    ensures key.forged <==> old(key.forged) || !Unforged(key.verify, checkpoints, key.signed)
    ensures forall c :: old(History(c, key.verify, db.checkpoints, key.signed, key.forged)) ==>
                          History(c, key.verify, db.checkpoints, key.signed, key.forged)
  {
    db.records, db.checkpoints := records, checkpoints;
    key.forged := key.forged || !Unforged(key.verify, checkpoints, key.signed);
  }

  lemma StillSigned(a: seq<Signing>, b: seq<Signing>, k: int, cp: Checkpoint)
    requires a <= b && WasSigned(a, k, cp)
    ensures WasSigned(b, k, cp)
  {
    var i :| 0 <= i < |a| && SignsFor(a[i], k, cp);
    assert b[i] == a[i];
  }

  lemma SignedOnly(c: Codec, verify: Verifier, a: World, g: Signing)
    requires SignedWell(c, g) && g.rows == a.records
    ensures Later(c, verify, a, a.(signed := a.signed + [g]))
  {
    forall k, q | WasSigned(a.signed, k, q)
      ensures WasSigned(a.signed + [g], k, q)
    {
      StillSigned(a.signed, a.signed + [g], k, q);
    }
  }

  lemma StoredRow(c: Codec, verify: Verifier, a: World, n: int, row: Row)
    requires n !in a.records
    ensures Later(c, verify, a, a.(records := a.records[n := row]))
  {
  }

  lemma RowsHoldMore(t: Records, base: int, ps: seq<Pending>, p: Pending, row: Row)
    requires base + |ps| + 1 !in t && RowHolds(row, p)
    ensures RowsHold(t, base, ps) ==> RowsHold(t[base + |ps| + 1 := row], base, ps + [p])
  {
  }

  /** Storing a checkpoint just signed. */
  lemma SignedCheckpoint(c: Codec, verify: Verifier, a: World, g: Signing, n: int, cp: Checkpoint)
    requires a.cpSeq < n && n !in a.checkpoints && SignsFor(g, n, cp) && SignedWell(c, g) && g.rows == a.records
    ensures Later(c, verify, a, a.(signed := a.signed + [g]))
    ensures Later(c, verify, a, World(a.records, a.checkpoints[n := cp], n, a.signed + [g]))
  {
    hide SignedWell, SignsFor;
    SignedOnly(c, verify, a, g);
    var signed := a.signed + [g];
    assert signed[|a.signed|] == g;
    assert WasSigned(signed, n, cp);
  }

  /** What a signing just made adds, before and after its checkpoint is stored. */
  lemma JustSigned(c: Codec, verify: Verifier, a: World, g: Signing, forged: bool, n: int, cp: Checkpoint)
    requires a.cpSeq < n && g == Signing(n, cp.prevSeq, cp.ms, cp.head, a.records, g.untouched) && SignedWell(c, g)
    ensures Later(c, verify, a, a.(signed := a.signed + [g])) && WasSigned(a.signed + [g], n, cp)
    ensures n !in a.checkpoints ==> Later(c, verify, a, World(a.records, a.checkpoints[n := cp], n, a.signed + [g]))
    ensures History(c, verify, a.checkpoints, a.signed, forged) ==> History(c, verify, a.checkpoints, a.signed + [g], forged)
  {
    assert SignsFor(g, n, cp) && (a.signed + [g])[|a.signed|] == g;
    hide History, SignedWell, SignsFor, Later, Unforged;
    SignedOnly(c, verify, a, g);
    if n !in a.checkpoints {
      SignedCheckpoint(c, verify, a, g, n, cp);
    }
    if History(c, verify, a.checkpoints, a.signed, forged) {
      HistoryLater(c, verify, a, a.(signed := a.signed + [g]), forged);
    }
  }

  /** A checkpoint the key signed may be put into tables that hold anything else. */
  lemma HistoryStored(c: Codec, verify: Verifier, cps: Checkpoints, signed: seq<Signing>, forged: bool, n: int, cp: Checkpoint)
    requires WasSigned(signed, n, cp)
    ensures History(c, verify, cps, signed, forged) ==> History(c, verify, cps[n := cp], signed, forged)
  {
  }

  /** Over untouched tables the rows signed for chain up to the head signed. */
  lemma SigningIsWell(c: Codec, verify: Verifier, t: Records, cps: Checkpoints, n: int, head: Bytes, cpSeq: int)
    requires HonestTables(c, verify, t, cps, n, head, cpSeq)
    ensures IntactTo(c, t, n, head)
  {
    HonestIsIntact(c, t, n);
  }

  /* ----- what one INSERT does to honest tables ----- */

  function NewRow(c: Codec, k: int, p: Pending, prev: Bytes): Row {
    Row(p.ms, p.r.fields, StatusColumn(p.r.upstreamStatus), prev, c.sha(c.NewEntry(k, p.ms, p.r, prev)))
  }

  lemma NewRowReadsBack(c: Codec, k: int, p: Pending, prev: Bytes)
    ensures c.EntryOf(k, NewRow(c, k, p, prev)) == c.NewEntry(k, p.ms, p.r, prev)
    ensures RowHolds(NewRow(c, k, p, prev), p)
  {
  }

  lemma OneMoreRow(t: Records, n: int, row: Row)
    requires (forall k :: k in t <==> 1 <= k <= |t|) && n == |t|
    ensures var t' := t[n + 1 := row]; n + 1 !in t && |t'| == n + 1 && forall k :: k in t' <==> 1 <= k <= |t'|
  {
    assert n + 1 !in t;
    assert t[n + 1 := row].Keys == t.Keys + {n + 1};
  }

  /** The rows already there stay intact beside a new one. */
  lemma IntactStays(c: Codec, t: Records, n: int, row: Row)
    requires HonestRecords(c, t) && n == |t|
    ensures forall k :: k in t ==> IsIntact(c, t[n + 1 := row], k)
  {
    forall k | k in t
      ensures IsIntact(c, t[n + 1 := row], k)
    {
      assert IsIntact(c, t, k) && k - 1 != n + 1;
    }
  }

  lemma RowIsIntact(c: Codec, k: int, p: Pending, prev: Bytes)
    ensures var row := NewRow(c, k, p, prev); row.hash == c.sha(c.EntryOf(k, row)) && row.prevHash == prev
  {
    NewRowReadsBack(c, k, p, prev);
  }

  lemma InsertRow(c: Codec, t: Records, n: int, row: Row)
    requires HonestRecords(c, t) && n == |t| && row.hash == c.sha(c.EntryOf(n + 1, row)) && row.prevHash == HashAt(c, t, n)
    ensures n + 1 !in t && n + 1 in t[n + 1 := row] && |t[n + 1 := row]| == n + 1 && HonestRecords(c, t[n + 1 := row])
  {
    hide Codec.EntryOf;
    OneMoreRow(t, n, row);
    IntactStays(c, t, n, row);
    assert IsIntact(c, t[n + 1 := row], n + 1);
  }

  lemma InsertRecord(c: Codec, verify: Verifier, t: Records, cps: Checkpoints, n: int, head: Bytes, cpSeq: int, p: Pending)
    requires HonestTables(c, verify, t, cps, n, head, cpSeq)
    ensures var row := NewRow(c, n + 1, p, head);
            n + 1 !in t && HonestTables(c, verify, t[n + 1 := row], cps, n + 1, row.hash, cpSeq)
  {
    RowIsIntact(c, n + 1, p, head);
    hide NewRow, Codec.EntryOf;
    InsertRow(c, t, n, NewRow(c, n + 1, p, head));
    hide HonestRecords;
    assert HonestCheckpoints(verify, t[n + 1 := NewRow(c, n + 1, p, head)], cps);
  }

  lemma InsertCheckpoint(c: Codec, verify: Verifier, t: Records, cps: Checkpoints, n: int, head: Bytes, cpSeq: int, cp: Checkpoint)
    requires HonestTables(c, verify, t, cps, n, head, cpSeq)
    requires cpSeq < n && cp.prevSeq == cpSeq && cp.head == head && verify(n, cp)
    ensures HonestTables(c, verify, t, cps[n := cp], n, head, n)
  {
    assert n in t && HashAt(c, t, n) == t[n].hash;
    hide HonestRecords;
    MoreCheckpoints(verify, t, cps, n, cpSeq, cp);
  }

  lemma MoreCheckpoints(verify: Verifier, t: Records, cps: Checkpoints, n: int, cpSeq: int, cp: Checkpoint)
    requires HonestCheckpoints(verify, t, cps) && IsLast(cps, cpSeq) && cpSeq < n && n in t
    requires cp.prevSeq == cpSeq && cp.head == t[n].hash && verify(n, cp)
    ensures HonestCheckpoints(verify, t, cps[n := cp]) && IsLast(cps[n := cp], n)
  {
    var cps' := cps[n := cp];
    forall k | k in cps
      ensures k in t && verify(k, cps'[k]) && cps'[k].head == t[k].hash && IsPrevious(cps', k, cps'[k].prevSeq)
    {
      PreviousStays(cps, n, cp, k, cps[k].prevSeq);
    }
    assert IsPrevious(cps', n, cpSeq);
    hide IsPrevious;
  }

  lemma PreviousStays(cps: Checkpoints, n: int, cp: Checkpoint, k: int, p: int)
    requires IsPrevious(cps, k, p) && k < n
    ensures IsPrevious(cps[n := cp], k, p)
  {
  }

  /* ----- a walk while the tables grow ----- */

  /** What the walk read is still what the tables show, and what it found signed was signed. */
  ghost predicate Reads(c: Codec, verify: Verifier, a: World, unforged: bool, w: Walk, seen: seq<Entry>, good: Checkpoints) {
    && Shows(c, a.records, seen)
    && Covers(c, verify, w.cpSeq, seen, good) && Extends(good, a.checkpoints)
    && (unforged ==> Unforged(verify, a.checkpoints, a.signed) && forall k :: k in good ==> WasSigned(a.signed, k, good[k]))
  }

  lemma ReadsLater(c: Codec, verify: Verifier, a: World, b: World, unforged: bool, w: Walk, seen: seq<Entry>, good: Checkpoints)
    requires Reads(c, verify, a, unforged, w, seen, good) && Later(c, verify, a, b)
    ensures Reads(c, verify, b, unforged, w, seen, good)
  {
    if unforged {
      forall k | k in good
        ensures WasSigned(b.signed, k, good[k])
      {
        StillSigned(a.signed, b.signed, k, good[k]);
      }
    }
  }

  /** Rows that read back as the entries of a run hold what the run stored. */
  lemma RowsStillHold(c: Codec, t: Records, seen: seq<Entry>, base: nat, h: Bytes, ps: seq<Pending>, es: seq<Entry>)
    requires c.Lossless() && Shows(c, t, seen) && base <= |seen| && seen[base..] == es && IsRun(c, base, h, ps, es)
    ensures forall k :: base < k <= base + |ps| ==>
              && k in t && t[k].ms == ps[k - base - 1].ms && t[k].fields == ps[k - base - 1].r.fields
              && (if t[k].status.Some? then t[k].status.value else 0) == ps[k - base - 1].r.upstreamStatus
  {
    forall k | base < k <= base + |ps|
      ensures k in t && t[k].ms == ps[k - base - 1].ms && t[k].fields == ps[k - base - 1].r.fields
      ensures (if t[k].status.Some? then t[k].status.value else 0) == ps[k - base - 1].r.upstreamStatus
    {
      var p, e := ps[k - base - 1], es[k - base - 1];
      assert seen[k - 1] == e;
      assert k in t && c.EntryOf(k, t[k]) == c.NewEntry(k, p.ms, p.r, e.prevHash);
      hide Shows, IsRun, Codec.Lossless, Codec.EntryOf, Codec.NewEntry;
      ReadsBackTheRecord(c, k, t[k], p.ms, p.r, e.prevHash);
    }
  }

  lemma WalkIsChain(c: Codec, w: Walk, seen: seq<Entry>)
    requires Follows(c, w, seen)
    ensures c.IsChain(seen) && w.records == |seen|
  {
  }

  /** A walk that ends at the head of a run has read that run; and the tables that show what it read
      still hold what the run stored. */
  lemma TheRunIsRead(c: Codec, seen: seq<Entry>, base: nat, h: Bytes, ps: seq<Pending>, es: seq<Entry>)
    requires c.CollisionFree() && c.IsChain(seen) && IsRun(c, base, h, ps, es)
    requires |seen| == base + |ps| && c.Head(seen) == c.LinkHead(h, es)
    ensures seen[base..] == es && c.Head(seen[..base]) == h
  {
    HeadDeterminesTail(c, seen, base, h, es);
  }

  lemma TheRunIsShown(c: Codec, verify: Verifier, a: World, unforged: bool, w: Walk, seen: seq<Entry>, good: Checkpoints,
                      base: nat, h: Bytes, ps: seq<Pending>, es: seq<Entry>)
    requires c.Lossless() && Reads(c, verify, a, unforged, w, seen, good)
    requires base <= |seen| && seen[base..] == es && IsRun(c, base, h, ps, es)
    ensures forall k :: base < k <= base + |ps| ==>
              && k in a.records && a.records[k].ms == ps[k - base - 1].ms && a.records[k].fields == ps[k - base - 1].r.fields
              && (if a.records[k].status.Some? then a.records[k].status.value else 0) == ps[k - base - 1].r.upstreamStatus
  {
    hide IsRun, Shows, Covers, Codec.Lossless;
    RowsStillHold(c, a.records, seen, base, h, ps, es);
  }

  /** Where a walk over tables nobody edits stands. */
  ghost predicate OnTrack(c: Codec, verify: Verifier, a: World, w: Walk) {
    && OnTrackRecords(c, a.records, w.records, w.prev)
    && HonestCheckpoints(verify, a.records, a.checkpoints) && IsLast(a.checkpoints, a.cpSeq)
    && OnTrackCheckpoints(a.checkpoints, w.cpSeq, w.checkpoints)
  }

  lemma HonestRecordsGrow(c: Codec, t: Records, t': Records, records: int, prev: Bytes)
    requires OnTrackRecords(c, t, records, prev) && 0 <= records && HonestRecords(c, t') && Extends(t, t')
    ensures OnTrackRecords(c, t', records, prev)
  {
    assert 0 < |t| ==> |t| in t;
    assert 0 < records ==> records in t && records in t';
    assert 0 !in t && 0 !in t';
  }

  lemma CheckpointsGrow(cps: Checkpoints, cps': Checkpoints, last: int, cpSeq: int, checkpoints: int)
    requires IsLast(cps, last) && Grew(cps, cps', last) && OnTrackCheckpoints(cps, cpSeq, checkpoints)
    ensures OnTrackCheckpoints(cps', cpSeq, checkpoints)
  {
    assert cpSeq <= last;
    assert (set k | k in cps && k <= cpSeq) == (set k | k in cps' && k <= cpSeq);
  }

  lemma OnTrackLater(c: Codec, verify: Verifier, a: World, b: World, w: Walk, n: int, head: Bytes)
    requires OnTrack(c, verify, a, w) && Later(c, verify, a, b) && 0 <= w.records
    requires HonestTables(c, verify, b.records, b.checkpoints, n, head, b.cpSeq)
    ensures OnTrack(c, verify, b, w)
  {
    hide HonestRecords, Extends, Grew, IsLast, HonestCheckpoints, Unforged, OnTrackRecords, OnTrackCheckpoints;
    HonestRecordsGrow(c, a.records, b.records, w.records, w.prev);
    CheckpointsGrow(a.checkpoints, b.checkpoints, a.cpSeq, w.cpSeq, w.checkpoints);
  }

  /** What is carried through a walk: whether signatures were taken for the key's own when it began,
      whether what it reads is, and whether the tables are untouched. */
  /** The break a walk over these tables reports is one they show. */
  ghost predicate WalkBreak(c: Codec, verify: Verifier, a: World, seen: seq<Entry>, v: Walk) {
    v.brk.Some? && c.IsChain(seen) &&
    (|| (RecordBreak(c, a.records, seen, v.brk.value) && v.records == |seen|)
     || CheckpointBreak(verify, a.records, a.checkpoints, v.records, v.brk.value))
  }

  /** The break is between the end of the tables and what the log remembers: its last record, that
      record's hash, and its last checkpoint.  `still` says that nobody edits the tables, so that the
      walk has read all there is. */
  ghost predicate EndBreak(c: Codec, a: World, seen: seq<Entry>, seqNo: int, head: Bytes, cpSeq: int, still: bool, v: Walk) {
    && v.brk.Some? && c.IsChain(seen)
    && (still ==> (forall k :: k in a.records ==> k <= |seen|) && (forall k :: k in a.checkpoints && k <= |seen| ==> k <= v.cpSeq))
    && var n := v.brk.value.seqNo;
       match v.brk.value.problem
       case CoveredRecordMissing => n == |seen| + 1 && v.records == |seen| && exists k :: k in a.checkpoints && |seen| < k
       case RecordMissing => n == |seen| + 1 <= seqNo && v.records == |seen|
       case NotAppended => n == seqNo + 1 <= |seen| && v.records == seqNo
       case NotTheRecordAppended => n == seqNo == |seen| && v.records == seqNo - 1 && c.Head(seen) != head
       case CheckpointMissing => n == cpSeq && v.records == v.cpSeq < cpSeq
       case _ => false
  }

  datatype Aim = Aim(unforged: bool, reading: bool, untouched: bool)

  ghost predicate Standing(c: Codec, verify: Verifier, a: World, aim: Aim, w: Walk, seen: seq<Entry>, good: Checkpoints) {
    && (aim.reading ==> Reads(c, verify, a, aim.unforged, w, seen, good))
    && (aim.untouched ==> OnTrack(c, verify, a, w))
  }

  lemma StandingLater(c: Codec, verify: Verifier, a: World, b: World, aim: Aim, w: Walk, seen: seq<Entry>, good: Checkpoints,
                      n: int, head: Bytes)
    requires Standing(c, verify, a, aim, w, seen, good) && Later(c, verify, a, b) && Follows(c, w, seen)
    requires aim.untouched ==> HonestTables(c, verify, b.records, b.checkpoints, n, head, b.cpSeq)
    ensures Standing(c, verify, b, aim, w, seen, good)
  {
    hide Reads, OnTrack, Later, HonestTables, Codec.IsLinked, Codec.LinkHead;
    if aim.reading {
      ReadsLater(c, verify, a, b, aim.unforged, w, seen, good);
    }
    if aim.untouched {
      OnTrackLater(c, verify, a, b, w, n, head);
    }
  }

  lemma StandingNowhere(c: Codec, verify: Verifier, a: World, b: World, aim: Aim, w: Walk, seen: seq<Entry>, good: Checkpoints)
    ensures !aim.reading && !aim.untouched ==> Standing(c, verify, b, aim, w, seen, good)
  {
  }

  lemma PageStands(c: Codec, verify: Verifier, a: World, aim: Aim, w: Walk, w': Walk, seen: seq<Entry>, seen': seq<Entry>, good: Checkpoints)
    requires Standing(c, verify, a, aim, w, seen, good)
    requires seen <= seen' && w'.cpSeq == w.cpSeq && w'.checkpoints == w.checkpoints
    requires Shows(c, a.records, seen) ==> Shows(c, a.records, seen')
    requires OnTrackRecords(c, a.records, w.records, w.prev) ==> w'.brk.None? && OnTrackRecords(c, a.records, w'.records, w'.prev)
    ensures Standing(c, verify, a, aim, w', seen', good) && (aim.untouched ==> w'.brk.None?)
  {
  }

  lemma CheckpointPageStands(c: Codec, verify: Verifier, a: World, aim: Aim, w: Walk, w': Walk, seen: seq<Entry>, good: Checkpoints, good': Checkpoints)
    requires Standing(c, verify, a, aim, w, seen, good)
    requires Covers(c, verify, w.cpSeq, seen, good) && Shows(c, a.records, seen) ==> Covers(c, verify, w'.cpSeq, seen, good')
    requires forall k :: k in good' ==> (k in good && good'[k] == good[k]) || (k in a.checkpoints && good'[k] == a.checkpoints[k])
    requires HonestCheckpoints(verify, a.records, a.checkpoints) && OnTrackCheckpoints(a.checkpoints, w.cpSeq, w.checkpoints) ==>
               w'.brk.None? && OnTrackCheckpoints(a.checkpoints, w'.cpSeq, w'.checkpoints)
    requires w'.brk.None? ==> w'.records == w.records && w'.prev == w.prev
    ensures w'.brk.None? ==> Standing(c, verify, a, aim, w', seen, good')
    ensures aim.untouched ==> w'.brk.None?
  {
  }

  /** Whether a record break was found does not matter to where a walk stands. */
  lemma SameWalk(c: Codec, verify: Verifier, a: World, aim: Aim, w: Walk, w': Walk, seen: seq<Entry>, good: Checkpoints)
    requires w' == w.(brk := w'.brk)
    ensures Follows(c, w, seen) ==> Follows(c, w', seen)
    ensures Standing(c, verify, a, aim, w, seen, good) ==> Standing(c, verify, a, aim, w', seen, good)
  {
  }

  lemma WalkStarts(c: Codec)
    ensures Follows(c, Start(c), [])
  {
  }

  lemma ReadsNothing(c: Codec, verify: Verifier, a: World)
    ensures Reads(c, verify, a, Unforged(verify, a.checkpoints, a.signed), Start(c), [], map[])
  {
  }

  lemma HonestStart(c: Codec, verify: Verifier, a: World, n: int, head: Bytes)
    requires HonestTables(c, verify, a.records, a.checkpoints, n, head, a.cpSeq)
    ensures OnTrack(c, verify, a, Start(c))
  {
    assert 0 !in a.records;
    forall k | k in a.checkpoints
      ensures 0 < k
    {
      assert k in a.records;
    }
    assert (set k | k in a.checkpoints && k <= 0) == {};
  }

  /** An untouched walk that reached the end of the tables agrees with the log on every count. */
  lemma HonestEnd(c: Codec, verify: Verifier, a: World, w: Walk, n: int, head: Bytes)
    requires HonestTables(c, verify, a.records, a.checkpoints, n, head, a.cpSeq) && OnTrack(c, verify, a, w)
    requires forall k :: k in a.records ==> k <= w.records
    requires forall k :: k in a.checkpoints && k <= w.records ==> k <= w.cpSeq
    requires 0 <= w.records
    ensures w.records == n == |a.records| && w.prev == head && w.cpSeq == a.cpSeq && w.checkpoints == |a.checkpoints|
    ensures forall k :: k in a.checkpoints ==> k <= w.records
  {
    assert 0 < |a.records| ==> |a.records| in a.records;
    forall k | k in a.checkpoints
      ensures k <= w.records
    {
      assert k in a.records;
    }
    CountAll(a.checkpoints, w.cpSeq);
  }

  lemma RunIsLinked(c: Codec, base: int, h: Bytes, ps: seq<Pending>, es: seq<Entry>)
    requires IsRun(c, base, h, ps, es)
    ensures |es| == |ps| && c.IsLinked(base, h, es)
  {
  }

  /** Rows a walk at record n has not read. */
  ghost function Unread(t: Records, n: int): nat { |set k | k in t && n < k| }

  lemma UnreadShrinks(t: Records, n: int, m: int)
    requires n < m && m in t
    ensures Unread(t, m) < Unread(t, n)
  {
    var above, fewer := (set k | k in t && n < k), (set k | k in t && m < k);
    assert m in above && m !in fewer && fewer <= above;
    ProperlyFewer(fewer, above);
  }

  /* ----- ORDER BY seq DESC LIMIT 1 ----- */

  lemma LastExists(keys: set<int>, j: int) returns (k: int)
    requires j in keys
    ensures k in keys && forall i :: i in keys ==> i <= k
    decreases |set i | i in keys && j < i|
  {
    k := j;
    if i :| i in keys && j < i {
      var above, fewer := (set m | m in keys && j < m), (set m | m in keys && i < m);
      assert i in above && i !in fewer && fewer <= above;
      ProperlyFewer(fewer, above);
      k := LastExists(keys, i);
    }
  }

  method Last(keys: set<int>) returns (o: Option<int>)
    ensures o.None? ==> forall j :: j !in keys
    ensures o.Some? ==> o.value in keys && forall j :: j in keys ==> j <= o.value
  {
    if j :| j in keys {
      ghost var last := LastExists(keys, j);
      var k :| k in keys && forall j :: j in keys ==> j <= k;
      return Some(k);
    }
    return None;
  }

  /** Untouched tables end where the log finds them to. */
  lemma HonestTablesEnd(c: Codec, verify: Verifier, t: Records, cps: Checkpoints, at: int, head: Bytes, cpSeq: int)
    requires EndsAt(t, at)
    requires if at in t then head == t[at].hash else at == 0 && head == c.genesis && forall k :: k !in t
    requires forall k :: k in cps ==> k <= cpSeq
    requires cpSeq in cps || (cpSeq == 0 && forall k :: k !in cps)
    ensures Untouched(c, verify, t, cps) ==> at == |t| && HonestTables(c, verify, t, cps, at, head, cpSeq)
  {
    if Untouched(c, verify, t, cps) {
      var m, h, cp :| HonestTables(c, verify, t, cps, m, h, cp);
      assert m != 0 ==> m in t;
      forall k | k in cps
        ensures 0 < k
      {
        assert k in t;
      }
    }
  }

  lemma NothingRun(c: Codec, t: Records, base: int, h: Bytes)
    ensures IsRun(c, base, h, [], []) && c.LinkHead(h, []) == h && RowsHold(t, base, [])
  {
  }

  class Log {
    const codec: Codec
    const db: Db
    const key: Key
    /** A checkpoint is due once this many records lack one. */
    const every: int
    /** Storage and signing never fail by themselves. */
    const reliable: bool

    var seqNo: int
    var head: Bytes
    var cpSeq: int
    var keyLoaded: bool
    var backlog: seq<Pending>
    var backlogged: bool
    /** Close was called; its wait for the background goroutines is over; how many of them retry. */
    var stopped: bool
    var closed: bool
    var retriers: nat

    /** Ghost history of this process: where it started, what was appended, what was stored. */
    ghost const baseSeq: int
    ghost const baseHead: Bytes
    ghost var appended: seq<Pending>
    ghost var stored: seq<Pending>
    ghost var entries: seq<Entry>

    /** The head is the end of one linked run holding each stored record once, in order. */
    ghost predicate Chained()
      reads this
    {
      seqNo == baseSeq + |stored| && head == codec.LinkHead(baseHead, entries) &&
      IsRun(codec, baseSeq, baseHead, stored, entries)
    }

    /** What holds whenever the lock is free, whatever anyone did to the tables. */
    ghost predicate Valid()
      reads this
    {
      && Chained()
      && appended == stored + backlog
      && (backlogged <==> backlog != [])
      && (backlogged && !stopped ==> 1 <= retriers)
    }

    /** What holds as well while nobody edits the tables. */
    ghost predicate Honest()
      reads this, db
    {
      && HonestTables(codec, key.verify, db.records, db.checkpoints, seqNo, head, cpSeq)
      && RowsHold(db.records, baseSeq, stored)
    }

    /** No row is past the last one this log stored. */
    ghost predicate AtEnd()
      reads this, db
    {
      EndsAt(db.records, seqNo)
    }

    ghost function Now(): World
      reads this, db, key
    {
      World(db.records, db.checkpoints, cpSeq, key.signed)
    }

    ghost predicate HistoryOk()
      reads this, db, key
    {
      History(codec, key.verify, db.checkpoints, key.signed, key.forged)
    }

    /** Open: the head and the last checkpoint are whatever the tables end with. */
    constructor Open(c: Codec, d: Db, k: Key, n: int, r: bool, editor: bool)
      modifies d, k`forged
      ensures codec == c && db == d && key == k && every == n && reliable == r
      ensures Valid() && !stopped && !closed && !keyLoaded && appended == [] && seqNo == baseSeq && head == baseHead
      ensures forall c :: old(History(c, k.verify, d.checkpoints, k.signed, k.forged)) ==> History(c, k.verify, d.checkpoints, k.signed, k.forged)
      ensures !editor ==>
                && unchanged(d) && unchanged(k)
                && AtEnd() && (d.records == map[] ==> seqNo == 0) && (d.checkpoints == map[] ==> cpSeq == 0)
                && (Untouched(c, k.verify, d.records, d.checkpoints) ==> Honest() && seqNo == |d.records|)
    {
      hide HonestTables, IsRun, RowsHold, Codec.LinkHead, Codec.IsLinked, History;
      codec, db, key, every, reliable := c, d, k, n, r;
      keyLoaded, backlog, backlogged, stopped, closed, retriers := false, [], false, false, false, 0;
      appended, stored, entries := [], [], [];
      var last := Last(d.records.Keys);
      var at, h := 0, c.genesis;
      if last.Some? {
        at, h := last.value, d.records[last.value].hash;
      }
      seqNo, head, baseSeq, baseHead := at, h, at, h;
      new;
      Meddle(editor);
      var cp := Last(d.checkpoints.Keys);
      cpSeq := if cp.Some? then cp.value else 0;
      NothingRun(c, d.records, at, h);
      if !editor {
        HonestTablesEnd(c, k.verify, d.records, d.checkpoints, seqNo, head, cpSeq);
      }
    }

    /** Start's loader: the audit signing key is loaded, even while Close waits for the loader. */
    method LoadKey()
      requires Valid() && !closed
      modifies `keyLoaded
      ensures keyLoaded && Valid() && (old(Honest()) ==> Honest())
    {
      keyLoaded := true;
    }

    /** Ready: Deliveries may be served. */
    predicate Ready()
      reads this
    {
      keyLoaded && !backlogged
    }

    /** A log that says it is ready has stored every record appended, in order. */
    lemma ReadyMeansStored()
      requires Valid() && Ready()
      ensures stored == appended && keyLoaded
    {
    }

    /** An editor, if there is one, may write to the tables now. */
    method Meddle(editor: bool)
      modifies db, key`forged
      ensures !editor ==> unchanged(db) && unchanged(key)
      ensures forall c :: old(History(c, key.verify, db.checkpoints, key.signed, key.forged)) ==>
                            History(c, key.verify, db.checkpoints, key.signed, key.forged)
    {
      hide History;
      var edits: bool, records: Records, checkpoints: Checkpoints := *, *, *;
      if editor && edits {
        Edit(db, key, records, checkpoints);
      }
    }

    /** With the key loaded and records uncovered, signs for the head of the moment, over the rows of
        the moment, and puts that checkpoint into the table. */
    method Sign(editor: bool)
      requires Chained()
      modifies `cpSeq, db, key
      ensures key.signed != old(key.signed) ==>
                && keyLoaded && old(cpSeq) < seqNo
                && exists cp :: SignedOne(old(key.signed), key.signed, seqNo, old(cpSeq), head, old(db.records), old(Honest()), cp)
      ensures cpSeq != old(cpSeq) ==>
                && cpSeq == seqNo && old(cpSeq) < seqNo
                && exists cp :: SignedOne(old(key.signed), key.signed, seqNo, old(cpSeq), head, old(db.records), old(Honest()), cp)
                                && seqNo in db.checkpoints && db.checkpoints[seqNo] == cp && key.verify(seqNo, cp)
                                && (!editor ==> seqNo !in old(db.checkpoints) && db.checkpoints == old(db.checkpoints)[seqNo := cp])
      ensures old(HistoryOk()) ==> HistoryOk()
      ensures !editor ==>
                && db.records == old(db.records) && key.forged == old(key.forged)
                && (cpSeq == old(cpSeq) ==> db.checkpoints == old(db.checkpoints))
                && Later(codec, key.verify, old(Now()), Now())
                && (old(Honest()) ==> Honest())
      ensures !editor && reliable && keyLoaded && old(cpSeq) < seqNo && seqNo !in old(db.checkpoints) && (forall cp :: key.verify(seqNo, cp)) ==>
                cpSeq == seqNo
    {
      hide Later, HonestTables, IsRun, RowsHold, Codec.LinkHead, IntactTo, History, SignsFor;
      LaterIsReflexive(codec, key.verify, Now());
      if !keyLoaded || seqNo <= cpSeq {
        return;
      }
      var ms: int, signature: Bytes := *, *;
      var cp := Checkpoint(cpSeq, ms, head, signature);
      // A failed signature is no signature; one that is made verifies.
      if !key.verify(seqNo, cp) {
        return;
      }
      ghost var g, w := Signing(seqNo, cpSeq, ms, head, db.records, Honest()), Now();
      if Honest() {
        SigningIsWell(codec, key.verify, db.records, db.checkpoints, seqNo, head, cpSeq);
      }
      JustSigned(codec, key.verify, w, g, key.forged, seqNo, cp);
      key.signed := key.signed + [g];
      assert SignedOne(old(key.signed), key.signed, seqNo, old(cpSeq), head, old(db.records), old(Honest()), cp);
      Meddle(editor);
      var inserted: bool := *;
      if (!inserted && !reliable) || seqNo in db.checkpoints {
        return;
      }
      if Honest() {
        InsertCheckpoint(codec, key.verify, db.records, db.checkpoints, seqNo, head, cpSeq, cp);
      }
      HistoryStored(codec, key.verify, db.checkpoints, key.signed, key.forged, seqNo, cp);
      db.checkpoints := db.checkpoints[seqNo := cp];
      cpSeq := seqNo;
      assert SignedOne(old(key.signed), key.signed, seqNo, old(cpSeq), head, old(db.records), old(Honest()), cp);
    }

    /** Stores p as the next record, or reports that it could not. */
    method Store(p: Pending, editor: bool) returns (ok: bool)
      requires Chained()
      modifies `seqNo, `head, `cpSeq, `stored, `entries, db, key
      ensures Chained()
      ensures stored == if ok then old(stored) + [p] else old(stored)
      ensures old(HistoryOk()) ==> HistoryOk()
      ensures !editor ==>
                && db.records == (if ok then old(db.records)[seqNo := NewRow(codec, seqNo, p, old(head))] else old(db.records))
                && (reliable && old(AtEnd()) ==> ok && AtEnd())
                // A checkpoint comes only when it is due.
                && (seqNo - old(cpSeq) < every ==> SignedNothing(old(Now()), Now()))
                && Later(codec, key.verify, old(Now()), Now()) && key.forged == old(key.forged)
                && (old(Honest()) ==> Honest())
    {
      hide Later, HonestTables, IsRun, RowsHold, Codec.LinkHead, History;
      LaterIsReflexive(codec, key.verify, Now());
      var next := seqNo + 1;
      ok := *;
      if (!ok && !reliable) || next in db.records {
        return false;
      }
      var row := NewRow(codec, next, p, head);
      ghost var e := codec.NewEntry(next, p.ms, p.r, head);
      RunExtends(codec, baseSeq, baseHead, stored, entries, p);
      NewRowReadsBack(codec, next, p, head);
      if Honest() {
        InsertRecord(codec, key.verify, db.records, db.checkpoints, seqNo, head, cpSeq, p);
      }
      ghost var w := Now();
      StoredRow(codec, key.verify, w, next, row);
      RowsHoldMore(db.records, baseSeq, stored, p, row);
      db.records := db.records[next := row];
      stored, entries := stored + [p], entries + [e];
      seqNo, head := next, row.hash;
      Meddle(editor);
      // A failure to stream the record is reported and changes nothing.
      if seqNo - cpSeq >= every {
        ghost var w' := Now();
        Sign(editor);
        if !editor {
          LaterIsTransitive(codec, key.verify, w, w', Now());
        }
      }
      ok := true;
    }

    /** Stores the oldest record of the backlog and takes it out, or leaves the backlog as it is. */
    method StoreFirst(editor: bool) returns (ok: bool)
      requires Chained() && appended == stored + backlog && backlog != []
      modifies `seqNo, `head, `cpSeq, `stored, `entries, `backlog, db, key
      ensures Chained() && appended == stored + backlog && seqNo + |backlog| == old(seqNo) + |old(backlog)|
      ensures backlog == if ok then old(backlog)[1..] else old(backlog)
      ensures old(HistoryOk()) ==> HistoryOk()
      ensures !editor ==>
                && (reliable && old(AtEnd()) ==> ok && AtEnd())
                && (seqNo - old(cpSeq) < every ==> SignedNothing(old(Now()), Now()))
                && Later(codec, key.verify, old(Now()), Now()) && key.forged == old(key.forged)
                && (old(Honest()) ==> Honest())
    {
      hide Later, HonestTables, IsRun, RowsHold, Codec.LinkHead, NewRow, EndsAt, SignedNothing, History;
      ok := Store(backlog[0], editor);
      if ok {
        backlog := backlog[1..];
      }
    }

    /** Empties the backlog from its front, up to the first record that will not go in. */
    method Flush(editor: bool)
      requires Chained() && appended == stored + backlog && (backlogged ==> stopped || 1 <= retriers)
      modifies `seqNo, `head, `cpSeq, `stored, `entries, `backlog, `backlogged, `retriers, db, key
      ensures Valid()
      ensures retriers >= old(retriers) && (stopped ==> retriers == old(retriers))
      ensures old(HistoryOk()) ==> HistoryOk()
      ensures !editor ==>
                && (reliable && old(AtEnd()) ==> backlog == [] && AtEnd())
                && (old(seqNo) + |old(backlog)| - old(cpSeq) < every ==> SignedNothing(old(Now()), Now()))
                && Later(codec, key.verify, old(Now()), Now()) && key.forged == old(key.forged)
                && (old(Honest()) ==> Honest())
    {
      hide Later, HonestTables, IsRun, RowsHold, Codec.LinkHead, EndsAt, History;
      LaterIsReflexive(codec, key.verify, Now());
      while backlog != []
        invariant Chained() && appended == stored + backlog && (backlogged ==> stopped || 1 <= retriers)
        invariant retriers == old(retriers) && seqNo + |backlog| == old(seqNo) + |old(backlog)|
        invariant old(HistoryOk()) ==> HistoryOk()
        invariant !editor ==>
                    && (reliable && old(AtEnd()) ==> AtEnd())
                    && (old(seqNo) + |old(backlog)| - old(cpSeq) < every ==> SignedNothing(old(Now()), Now()))
                    && Later(codec, key.verify, old(Now()), Now()) && key.forged == old(key.forged)
                    && (old(Honest()) ==> Honest())
        decreases |backlog|
      {
        Meddle(editor);
        ghost var w := Now();
        var ok := StoreFirst(editor);
        if !editor {
          LaterIsTransitive(codec, key.verify, old(Now()), w, Now());
        }
        if !ok {
          if !backlogged {
            backlogged := true;
            if !stopped {
              retriers := retriers + 1;
            }
          }
          return;
        }
      }
      backlogged := false;
    }

    method Append(r: Record, editor: bool)
      requires Valid()
      modifies this, db, key
      ensures Valid() && stopped == old(stopped) && closed == old(closed) && keyLoaded == old(keyLoaded)
      ensures exists ms :: appended == old(appended) + [Pending(r, ms)]
      ensures old(HistoryOk()) ==> HistoryOk()
      ensures !editor ==>
                && (reliable && old(AtEnd()) ==> backlog == [] && AtEnd())
                && (old(seqNo) + |old(backlog)| + 1 - old(cpSeq) < every ==> SignedNothing(old(Now()), Now()))
                && Later(codec, key.verify, old(Now()), Now()) && key.forged == old(key.forged)
                && (old(Honest()) ==> Honest())
    {
      hide Later, HonestTables, IsRun, RowsHold, Codec.LinkHead, History;
      var ms: int := *;
      backlog := backlog + [Pending(r, ms)];
      appended := appended + [Pending(r, ms)];
      Flush(editor);
      assert appended == old(appended) + [Pending(r, ms)];
    }

    /** One turn of a retryStore goroutine, if one is alive.  Once Close was called it may see that,
        or run once more. */
    method RetryTick(editor: bool)
      requires Valid()
      modifies this, db, key
      ensures Valid() && appended == old(appended)
      ensures stopped == old(stopped) && closed == old(closed) && keyLoaded == old(keyLoaded)
      ensures stopped ==> retriers <= old(retriers) && (retriers == old(retriers) ==> old(retriers) == 0 || backlog != [])
      ensures old(HistoryOk()) ==> HistoryOk()
      ensures !editor ==>
                && Later(codec, key.verify, old(Now()), Now()) && key.forged == old(key.forged)
                && (old(Honest()) ==> Honest())
    {
      hide Later, HonestTables, IsRun, RowsHold, Codec.LinkHead, History;
      LaterIsReflexive(codec, key.verify, Now());
      if retriers == 0 {
        return;
      }
      var seesStop: bool := *;
      if stopped && seesStop {
        retriers := retriers - 1;
        return;
      }
      Flush(editor);
      if backlog == [] {
        retriers := retriers - 1;
      }
    }

    /** One tick of signEveryInterval, which may still come while Close waits. */
    method IntervalTick(editor: bool)
      requires Valid() && !closed
      modifies `cpSeq, db, key
      ensures Valid()
      ensures old(HistoryOk()) ==> HistoryOk()
      ensures !editor && reliable && keyLoaded && old(cpSeq) < seqNo && seqNo !in old(db.checkpoints) && (forall cp :: key.verify(seqNo, cp)) ==>
                && cpSeq == seqNo
                && exists cp :: SignedOne(old(key.signed), key.signed, seqNo, old(cpSeq), head, old(db.records), old(Honest()), cp)
                                && db.checkpoints == old(db.checkpoints)[seqNo := cp]
      ensures !editor ==>
                && db.records == old(db.records)
                && Later(codec, key.verify, old(Now()), Now()) && key.forged == old(key.forged)
                && (old(Honest()) ==> Honest())
    {
      hide Later, HonestTables, IsRun, RowsHold, Codec.LinkHead, History;
      Sign(editor);
    }

    /** Close waits for the background goroutines, which may each take more steps before the last of
        them sees that Close was called. */
    method Wait(editor: bool)
      requires Valid() && stopped && !closed
      modifies this, db, key
      ensures Valid() && stopped && closed && retriers == 0 && appended == old(appended)
      ensures old(HistoryOk()) ==> HistoryOk()
      ensures !editor ==>
                && Later(codec, key.verify, old(Now()), Now()) && key.forged == old(key.forged)
                && (old(Honest()) ==> Honest())
    {
      hide Later, HonestTables, IsRun, RowsHold, Codec.LinkHead, History;
      ghost var w0 := Now();
      LaterIsReflexive(codec, key.verify, w0);
      var steps: int := *;
      while 0 < steps
        invariant Valid() && stopped && !closed && appended == old(appended)
        invariant old(HistoryOk()) ==> HistoryOk()
        invariant !editor ==>
                    && Later(codec, key.verify, w0, Now()) && key.forged == old(key.forged)
                    && (old(Honest()) ==> Honest())
      {
        Meddle(editor);
        ghost var w := Now();
        LaterIsReflexive(codec, key.verify, w);
        var step: int := *;
        match step {
          case 0 => RetryTick(editor);
          case 1 => LoadKey();
          case _ => IntervalTick(editor);
        }
        steps := steps - 1;
        if !editor {
          LaterIsTransitive(codec, key.verify, w0, w, Now());
        }
      }
      retriers, closed := 0, true;
    }

    /** Close: background work ends, one last flush, one last checkpoint, and the key is gone.
        What is still in the backlog is lost. */
    method Close(editor: bool) returns (lost: seq<Pending>)
      requires Valid() && !stopped && !closed
      modifies this, db, key
      ensures Valid() && stopped && closed && retriers == 0 && !keyLoaded
      ensures appended == old(appended) == stored + lost
      ensures old(HistoryOk()) ==> HistoryOk()
      ensures !editor ==>
                && Later(codec, key.verify, old(Now()), Now()) && key.forged == old(key.forged)
                && (old(Honest()) ==> Honest())
    {
      hide Later, HonestTables, IsRun, RowsHold, Codec.LinkHead, History;
      ghost var w0 := Now();
      stopped := true;
      Wait(editor);
      ghost var w1 := Now();
      Flush(editor);
      if !editor {
        LaterIsTransitive(codec, key.verify, w0, w1, Now());
      }
      Meddle(editor);
      ghost var w2 := Now();
      Sign(editor);
      if !editor {
        LaterIsTransitive(codec, key.verify, w0, w2, Now());
      }
      keyLoaded := false;
      return backlog;
    }

    /** What others do meanwhile, in up to `fuel` steps and any order: appends, retries, checkpoints
        and key loads, unless the lock is held; and, if there is an editor, edits of the tables, between
        these steps and within them. */
    method Others(locked: bool, editor: bool, fuel: nat) returns (left: nat)
      requires Valid() && !stopped && !closed
      modifies this, db, key
      ensures Valid() && !stopped && !closed && left <= fuel && (old(keyLoaded) ==> keyLoaded)
      ensures left == fuel ==> Now() == old(Now())
      ensures locked ==> unchanged(this) && key.signed == old(key.signed)
      ensures locked && !editor ==> unchanged(db) && unchanged(key)
      ensures fuel == 0 ==> unchanged(this) && unchanged(db) && unchanged(key)
      ensures old(HistoryOk()) ==> HistoryOk()
      ensures !editor ==> Later(codec, key.verify, old(Now()), Now()) && key.forged == old(key.forged)
      ensures !editor && old(Honest()) ==> Honest()
    {
      hide Later, HonestTables, IsRun, RowsHold, Codec.LinkHead, History;
      ghost var w0 := Now();
      LaterIsReflexive(codec, key.verify, w0);
      left := fuel;
      while 0 < left
        invariant Valid() && !stopped && !closed && left <= fuel && (old(keyLoaded) ==> keyLoaded)
        invariant left == fuel ==> Now() == w0
        invariant locked ==> unchanged(this) && key.signed == old(key.signed)
        invariant locked && !editor ==> unchanged(db) && unchanged(key)
        invariant fuel == 0 ==> unchanged(this) && unchanged(db) && unchanged(key)
        invariant old(HistoryOk()) ==> HistoryOk()
        invariant !editor ==> Later(codec, key.verify, w0, Now()) && key.forged == old(key.forged)
        invariant !editor && old(Honest()) ==> Honest()
        decreases left
      {
        var edits: bool := *;
        if edits && editor {
          Meddle(editor);
        } else if locked {
          return;
        } else {
          ghost var w := Now();
          var goesOn := Step(editor);
          if !editor {
            LaterIsTransitive(codec, key.verify, w0, w, Now());
          }
          if !goesOn {
            return;
          }
        }
        left := left - 1;
      }
    }

    /** One step of one goroutine of this process, or none. */
    method Step(editor: bool) returns (stepped: bool)
      requires Valid() && !stopped && !closed
      modifies this, db, key
      ensures Valid() && !stopped && !closed && (old(keyLoaded) ==> keyLoaded)
      ensures !stepped ==> Now() == old(Now())
      ensures old(HistoryOk()) ==> HistoryOk()
      ensures !editor ==>
                && Later(codec, key.verify, old(Now()), Now()) && key.forged == old(key.forged)
                && (old(Honest()) ==> Honest())
    {
      hide Later, HonestTables, IsRun, RowsHold, Codec.LinkHead, History;
      LaterIsReflexive(codec, key.verify, Now());
      var step: int, r: Record := *, *;
      match step {
        case 0 => Append(r, editor);
        case 1 => RetryTick(editor);
        case 2 => IntervalTick(editor);
        case 3 => LoadKey();
        case _ => return false;
      }
      stepped := true;
    }

    /** What is carried through a walk holds at its start: only with no editor about, and what is
        promised of untouched tables only on those. */
    ghost predicate Aims(aim: Aim, editor: bool, w: Walk, seen: seq<Entry>, good: Checkpoints)
      reads this, db, key
    {
      && (aim.reading || aim.untouched ==> !editor)
      && (aim.untouched ==> Honest())
      && Standing(codec, key.verify, Now(), aim, w, seen, good)
    }

    /** A walk's standing survives what others do before its next page. */
    method BeforePage(locked: bool, editor: bool, fuel: nat, ghost aim: Aim, ghost w: Walk, ghost seen: seq<Entry>,
                      ghost good: Checkpoints)
      returns (left: nat)
      requires Valid() && !stopped && !closed && Follows(codec, w, seen) && Aims(aim, editor, w, seen, good)
      modifies this, db, key
      ensures Valid() && !stopped && !closed && left <= fuel && (left == fuel ==> Now() == old(Now()))
      ensures locked ==> unchanged(this)
      ensures locked && !editor ==> unchanged(db) && unchanged(key)
      ensures fuel == 0 ==> unchanged(this) && unchanged(db) && unchanged(key)
      ensures !editor ==> Later(codec, key.verify, old(Now()), Now()) && key.forged == old(key.forged)
      ensures Aims(aim, editor, w, seen, good)
    {
      hide Later, HonestTables, IsRun, RowsHold, Codec.LinkHead, Codec.IsLinked, Standing, Follows;
      ghost var a := Now();
      left := Others(locked, editor, fuel);
      if !editor {
        StandingLater(codec, key.verify, a, Now(), aim, w, seen, good, seqNo, head);
      } else {
        StandingNowhere(codec, key.verify, a, Now(), aim, w, seen, good);
      }
    }

    /** The record pages of one walk, with others acting before each page. */
    method WalkRecords(page: nat, locked: bool, editor: bool, fuel: nat, w: Walk, ghost aim: Aim,
                       ghost seen: seq<Entry>, ghost good: Checkpoints)
      returns (w': Walk, left: nat, ghost seen': seq<Entry>)
      requires Valid() && !stopped && !closed && 1 <= page && Follows(codec, w, seen) && w.brk.None?
      requires Aims(aim, editor, w, seen, good)
      modifies this, db, key
      ensures Valid() && !stopped && !closed && left <= fuel
      ensures locked ==> unchanged(this)
      ensures locked && !editor ==> unchanged(db) && unchanged(key)
      ensures fuel == 0 ==> unchanged(this) && unchanged(db) && unchanged(key)
      ensures !editor ==> Later(codec, key.verify, old(Now()), Now()) && key.forged == old(key.forged)
      ensures Follows(codec, w', seen') && w'.cpSeq == w.cpSeq
      ensures w'.brk.Some? ==> RecordBreak(codec, db.records, seen', w'.brk.value)
      ensures locked && !editor && w'.brk.None? ==> forall k :: k in db.records ==> k <= w'.records
      ensures Aims(aim, editor, w', seen', good) && (aim.untouched ==> w'.brk.None?)
    {
      hide Later, HonestTables, IsRun, RowsHold, Codec.LinkHead, Codec.IsLinked, Standing, Follows, OnTrackRecords, Shows, RecordBreak;
      ghost var w0 := Now();
      LaterIsReflexive(codec, key.verify, w0);
      w', left, seen' := w, fuel, seen;
      while true
        invariant Valid() && !stopped && !closed && left <= fuel && w'.brk.None?
        invariant locked ==> unchanged(this)
        invariant locked && !editor ==> unchanged(db) && unchanged(key)
        invariant fuel == 0 ==> unchanged(this) && unchanged(db) && unchanged(key)
        invariant !editor ==> Later(codec, key.verify, w0, Now()) && key.forged == old(key.forged)
        invariant Follows(codec, w', seen') && w'.cpSeq == w.cpSeq
        invariant Aims(aim, editor, w', seen', good)
        decreases left, Unread(db.records, w'.records)
      {
        ghost var a := Now();
        left := BeforePage(locked, editor, left, aim, w', seen', good);
        if !editor {
          LaterIsTransitive(codec, key.verify, w0, a, Now());
        }
        var n: nat;
        ghost var v, before := w', seen';
        w', n, seen' := VerifyPage(codec, db.records, page, w', seen');
        PageStands(codec, key.verify, Now(), aim, v, w', before, seen', good);
        if w'.brk.Some? || n < page {
          return;
        }
        UnreadShrinks(db.records, w'.records - page, w'.records);
      }
    }

    /** The checkpoint pages of one walk. */
    method WalkCheckpoints(page: nat, locked: bool, editor: bool, fuel: nat, w: Walk, ghost aim: Aim,
                           ghost seen: seq<Entry>, ghost good: Checkpoints)
      returns (w': Walk, ghost good': Checkpoints)
      requires Valid() && !stopped && !closed && 1 <= page && Follows(codec, w, seen) && w.brk.None?
      requires Aims(aim, editor, w, seen, good)
      modifies this, db, key
      ensures Valid() && !stopped && !closed
      ensures locked ==> unchanged(this)
      ensures locked && !editor ==> unchanged(db) && unchanged(key)
      ensures fuel == 0 ==> unchanged(this) && unchanged(db) && unchanged(key)
      ensures !editor ==> Later(codec, key.verify, old(Now()), Now()) && key.forged == old(key.forged)
      ensures w'.brk.None? ==> Follows(codec, w', seen) && w'.records == w.records && Aims(aim, editor, w', seen, good')
      ensures w'.brk.Some? ==> CheckpointBreak(key.verify, db.records, db.checkpoints, w'.records, w'.brk.value)
      ensures locked && !editor && w'.brk.None? ==> forall k :: k in db.checkpoints && k <= w'.records ==> k <= w'.cpSeq
      ensures aim.untouched ==> w'.brk.None?
    {
      hide Later, HonestTables, IsRun, RowsHold, Codec.LinkHead, Codec.IsLinked, Standing;
      hide OnTrackCheckpoints, Shows, Covers, HonestCheckpoints, CheckpointBreak, Codec.IsChain, Codec.Head;
      ghost var w0 := Now();
      LaterIsReflexive(codec, key.verify, w0);
      var left: nat := fuel;
      w', good' := w, good;
      while true
        invariant Valid() && !stopped && !closed && w'.brk.None? && left <= fuel
        invariant locked ==> unchanged(this)
        invariant locked && !editor ==> unchanged(db) && unchanged(key)
        invariant fuel == 0 ==> unchanged(this) && unchanged(db) && unchanged(key)
        invariant !editor ==> Later(codec, key.verify, w0, Now()) && key.forged == old(key.forged)
        invariant Follows(codec, w', seen) && w'.records == w.records
        invariant Aims(aim, editor, w', seen, good')
        decreases w.records - w'.cpSeq
      {
        ghost var a := Now();
        left := BeforePage(locked, editor, left, aim, w', seen, good');
        if !editor {
          LaterIsTransitive(codec, key.verify, w0, a, Now());
        }
        var n: nat;
        ghost var v, before := w', good';
        w', n, good' := VerifyCheckpointPage(codec, key.verify, db.records, db.checkpoints, page, w', seen, good');
        CheckpointPageStands(codec, key.verify, Now(), aim, v, w', seen, before, good');
        if w'.brk.Some? || n < page {
          return;
        }
      }
    }

    /** One walk: the records, then the checkpoints over those that passed, whose break, if any, is
        the one reported. */
    method WalkTables(page: nat, locked: bool, editor: bool, fuel: nat, w: Walk, ghost aim: Aim,
                      ghost seen: seq<Entry>, ghost good: Checkpoints)
      returns (w': Walk, ghost seen': seq<Entry>, ghost good': Checkpoints, ghost at: World)
      requires Valid() && !stopped && !closed && 1 <= page && Follows(codec, w, seen) && w.brk.None?
      requires Aims(aim, editor, w, seen, good)
      modifies this, db, key
      ensures Valid() && !stopped && !closed
      ensures locked ==> unchanged(this)
      ensures locked && !editor ==> unchanged(db) && unchanged(key)
      ensures fuel == 0 ==> unchanged(this) && unchanged(db) && unchanged(key)
      ensures !editor ==> Later(codec, key.verify, old(Now()), Now()) && key.forged == old(key.forged)
      ensures w'.brk.None? ==> Follows(codec, w', seen') && Aims(aim, editor, w', seen', good')
      ensures locked && !editor && w'.brk.None? ==>
                && (forall k :: k in db.records ==> k <= w'.records)
                && (forall k :: k in db.checkpoints && k <= w'.records ==> k <= w'.cpSeq)
      ensures aim.untouched ==> w'.brk.None?
      ensures w'.brk.Some? ==> WalkBreak(codec, key.verify, at, seen', w')
      ensures !editor ==> Later(codec, key.verify, old(Now()), at) && Later(codec, key.verify, at, Now())
    {
      hide Later, HonestTables, IsRun, RowsHold, Codec.LinkHead, Codec.IsLinked, Standing, Follows, RecordBreak, CheckpointBreak;
      ghost var w0 := Now();
      var left: nat;
      w', left, seen' := WalkRecords(page, locked, editor, fuel, w, aim, seen, good);
      ghost var a, v := Now(), w';
      var recordBreak := w'.brk;
      SameWalk(codec, key.verify, a, aim, w', w'.(brk := None), seen', good);
      w', good' := WalkCheckpoints(page, locked, editor, left, w'.(brk := None), aim, seen', good);
      if !editor {
        LaterIsTransitive(codec, key.verify, w0, a, Now());
      }
      at := a;
      WalkIsChain(codec, v, seen');
      if w'.brk.None? {
        SameWalk(codec, key.verify, Now(), aim, w', w'.(brk := recordBreak), seen', good');
        w' := w'.(brk := recordBreak);
      } else {
        at := Now();
        LaterIsReflexive(codec, key.verify, at);
      }
    }

    /** Both walks of Verify: most of the chain while others append, then the rest under the lock. */
    method WalkTwice(page: nat, editor: bool, fuel: nat, ghost aim: Aim)
      returns (w: Walk, ghost seen: seq<Entry>, ghost good: Checkpoints, ghost at: World)
      requires Valid() && !stopped && !closed && 1 <= page && Aims(aim, editor, Start(codec), [], map[])
      modifies this, db, key
      ensures Valid() && !stopped && !closed
      ensures fuel == 0 ==> unchanged(this) && unchanged(db) && unchanged(key)
      ensures !editor ==> Later(codec, key.verify, old(Now()), Now()) && key.forged == old(key.forged)
      ensures w.brk.None? ==> Follows(codec, w, seen) && Aims(aim, editor, w, seen, good)
      ensures !editor && w.brk.None? ==>
                && (forall k :: k in db.records ==> k <= w.records)
                && (forall k :: k in db.checkpoints && k <= w.records ==> k <= w.cpSeq)
      ensures aim.untouched ==> w.brk.None?
      ensures w.brk.Some? ==> WalkBreak(codec, key.verify, at, seen, w)
      ensures !editor ==> Later(codec, key.verify, old(Now()), at) && Later(codec, key.verify, at, Now())
    {
      hide Later, HonestTables, IsRun, RowsHold, Standing, Follows, WalkBreak, Codec.LinkHead, Codec.IsLinked;
      ghost var w0 := Now();
      w, seen, good := Start(codec), [], map[];
      WalkStarts(codec);
      w, seen, good, at := WalkTables(page, false, editor, fuel, w, aim, seen, good);
      if w.brk.Some? {
        return;
      }
      ghost var a := Now();
      var left := BeforePage(false, editor, fuel, aim, w, seen, good);
      if !editor {
        LaterIsTransitive(codec, key.verify, w0, a, Now());
      }
      ghost var b := Now();
      w, seen, good, at := WalkTables(page, true, editor, fuel, w, aim, seen, good);
      if !editor {
        LaterIsTransitive(codec, key.verify, w0, b, at);
        LaterIsTransitive(codec, key.verify, w0, at, Now());
      }
    }

    /** The walks must have ended where this process did. */
    function Compare(w: Walk, covering: Option<int>): Walk
      reads this
    {
      if covering.Some? then w.(brk := Some(Break(w.records + 1, CoveredRecordMissing)))
      else if w.records < seqNo then w.(brk := Some(Break(w.records + 1, RecordMissing)))
      else if w.records > seqNo then w.(records := seqNo, brk := Some(Break(seqNo + 1, NotAppended)))
      else if w.prev != head then w.(records := seqNo - 1, brk := Some(Break(seqNo, NotTheRecordAppended)))
      else if w.cpSeq < cpSeq then w.(records := w.cpSeq, brk := Some(Break(cpSeq, CheckpointMissing)))
      else w
    }

    /** The end of Verify: nothing may be left that the walks did not reach, and they must have ended
        where this process did. */
    method Conclude(editor: bool, fuel: nat, w: Walk, ghost aim: Aim, ghost seen: seq<Entry>, ghost good: Checkpoints)
      returns (v: Walk)
      requires Valid() && !stopped && !closed && w.brk.None? && Follows(codec, w, seen) && Aims(aim, editor, w, seen, good)
      requires !editor ==> && (forall k :: k in db.records ==> k <= w.records)
                           && (forall k :: k in db.checkpoints && k <= w.records ==> k <= w.cpSeq)
      modifies this, db, key
      ensures Valid() && !stopped && !closed && unchanged(this)
      ensures !editor || fuel == 0 ==> unchanged(db) && unchanged(key)
      ensures v.brk.None? ==> v == w && w.records == seqNo && w.prev == head && cpSeq <= w.cpSeq
      ensures v.brk.Some? ==> EndBreak(codec, Now(), seen, seqNo, head, cpSeq, !editor, v)
      ensures v.brk.None? && !editor ==> forall k :: k in db.checkpoints ==> k <= w.cpSeq
      ensures aim.untouched ==> v.brk.None? && v.records == |db.records| && v.checkpoints == |db.checkpoints|
    {
      hide Later, HonestTables, IsRun, RowsHold, Reads, OnTrack, Unforged, Codec.LinkHead, Codec.IsLinked;
      var left := Others(true, editor, fuel);
      var covering := Next(db.checkpoints.Keys, w.records);
      if aim.untouched {
        HonestEnd(codec, key.verify, Now(), w, seqNo, head);
      }
      v := Compare(w, covering);
    }

    /** Both walks, and then what the log remembers. */
    method Inspect(page: nat, editor: bool, fuel: nat, ghost aim: Aim)
      returns (w: Walk, ghost seen: seq<Entry>, ghost good: Checkpoints, ghost at: World)
      requires Valid() && !stopped && !closed && 1 <= page && Aims(aim, editor, Start(codec), [], map[])
      modifies this, db, key
      ensures Valid() && !stopped && !closed
      ensures fuel == 0 ==> unchanged(this) && unchanged(db) && unchanged(key)
      ensures !editor ==> Later(codec, key.verify, old(Now()), Now()) && key.forged == old(key.forged)
      ensures !editor ==> Later(codec, key.verify, old(Now()), at) && Later(codec, key.verify, at, Now())
      ensures w.brk.Some? ==>
                WalkBreak(codec, key.verify, at, seen, w) || EndBreak(codec, at, seen, seqNo, head, cpSeq, !editor, w)
      ensures w.brk.None? ==>
                && codec.IsChain(seen) && |seen| == w.records == seqNo && codec.Head(seen) == head && cpSeq <= w.cpSeq
                && (!editor ==> Aims(aim, editor, w, seen, good))
      ensures w.brk.None? && !editor ==>
                (forall k :: k in db.records ==> k <= |seen|) && (forall k :: k in db.checkpoints ==> k <= w.cpSeq)
      ensures aim.untouched ==>
                Honest() && w.brk.None? && w.records == |db.records| && w.checkpoints == |db.checkpoints|
    {
      hide Later, HonestTables, IsRun, RowsHold, Standing, WalkBreak, EndBreak, Codec.LinkHead, Codec.IsLinked, HistoryOk;
      w, seen, good, at := WalkTwice(page, editor, fuel, aim);
      if w.brk.None? {
        w := Conclude(editor, fuel, w, aim, seen, good);
        at := Now();
        LaterIsReflexive(codec, key.verify, at);
      }
    }

    /** Verify, with `page` rows to a query, while others append, and perhaps an editor edits: before
        each page of either walk, between the walks, and after them, lock or no lock.

        A clean verdict means that the entries read are the one chain that ends at this process's
        head, and hold every record it stored; with no editor during the call, that the tables
        hold exactly those rows, and that each checkpoint passed was signed over a prefix of them.
        On tables nobody ever edited the verdict is clean and counts what is stored. */
    method Verify(page: nat, editor: bool, fuel: nat)
      returns (verdict: Option<Walk>, ghost seen: seq<Entry>, ghost good: Checkpoints, ghost at: World)
      requires Valid() && !stopped && !closed && 1 <= page
      modifies this, db, key
      ensures Valid() && !stopped && !closed
      ensures verdict.None? <==> !old(keyLoaded)
      // A break reported is one the tables showed at some moment of the call, or one between their end
      // and what the log remembers.
      ensures verdict.Some? && verdict.value.brk.Some? ==>
                || WalkBreak(codec, key.verify, at, seen, verdict.value)
                || EndBreak(codec, at, seen, seqNo, head, cpSeq, !editor, verdict.value)
      ensures !editor ==> Later(codec, key.verify, old(Now()), at) && Later(codec, key.verify, at, Now())
      ensures fuel == 0 ==> unchanged(this) && unchanged(db) && unchanged(key)
      // Soundness: whatever anyone did to the tables, before the call or during it.
      ensures verdict.Some? && verdict.value.brk.None? ==>
                && codec.IsChain(seen) && |seen| == verdict.value.records == seqNo && codec.Head(seen) == head
                && cpSeq <= verdict.value.cpSeq
                && (codec.CollisionFree() && 0 <= baseSeq ==>
                      seen[baseSeq..] == entries && codec.Head(seen[..baseSeq]) == baseHead)
      ensures !editor ==> Later(codec, key.verify, old(Now()), Now()) && key.forged == old(key.forged)
      ensures verdict.Some? && verdict.value.brk.None? && !editor ==>
                && Reads(codec, key.verify, Now(), old(Unforged(key.verify, db.checkpoints, key.signed)),
                         verdict.value, seen, good)
                && (forall k :: k in db.records ==> k <= |seen|)
                && (forall k :: k in db.checkpoints ==> k <= verdict.value.cpSeq)
      // So the rows of the records this process stored still hold what was appended.
      ensures verdict.Some? && verdict.value.brk.None? && !editor && codec.CollisionFree() && codec.Lossless() && 0 <= baseSeq ==>
                forall k :: baseSeq < k <= baseSeq + |stored| ==>
                  k in db.records && var row, p := db.records[k], stored[k - baseSeq - 1];
                  && row.ms == p.ms && row.fields == p.r.fields
                  && (if row.status.Some? then row.status.value else 0) == p.r.upstreamStatus
      // Completeness: on tables only this log has written.
      ensures !editor && old(Honest()) ==>
                Honest() && (verdict.Some? ==>
                  && verdict.value.brk.None?
                  && verdict.value.records == |db.records| && verdict.value.checkpoints == |db.checkpoints|)
    {
      hide Later, HonestTables, IsRun, RowsHold, Reads, OnTrack, Unforged, Covers, Shows;
      hide Codec.LinkHead, Codec.IsLinked, Codec.Lossless, Codec.CollisionFree, HistoryOk, WalkBreak, EndBreak;
      LaterIsReflexive(codec, key.verify, Now());
      seen, good, at := [], map[], Now();
      if !keyLoaded {
        return None, seen, good, at;
      }
      ghost var aim := Aim(Unforged(key.verify, db.checkpoints, key.signed), !editor, !editor && Honest());
      ReadsNothing(codec, key.verify, Now());
      if aim.untouched {
        HonestStart(codec, key.verify, Now(), seqNo, head);
      }
      var w;
      w, seen, good, at := Inspect(page, editor, fuel, aim);
      if w.brk.None? && codec.CollisionFree() && 0 <= baseSeq {
        TheRunIsRead(codec, seen, baseSeq, baseHead, stored, entries);
        if !editor && codec.Lossless() {
          TheRunIsShown(codec, key.verify, Now(), aim.unforged, w, seen, good, baseSeq, baseHead, stored, entries);
        }
      }
      return Some(w), seen, good, at;
    }
  }
}
