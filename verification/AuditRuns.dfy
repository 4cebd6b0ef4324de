/** What the audit log promises over whole runs: any number of processes over one database and
    one audit signing key. */
module AuditRuns {
  import opened Basics
  import opened AuditFormat
  import opened AuditVerify
  import opened AuditLog

  /* ----- what a verified checkpoint says about the past ----- */

  /** The rows 1..|es| encode exactly es. */
  ghost predicate Encode(c: Codec, t: Records, es: seq<Entry>) {
    forall i :: 1 <= i <= |es| ==> i in t && c.EntryOf(i, t[i]) == es[i - 1]
  }

  ghost predicate Fits(seqNo: int, prevSeq: int, ms: int) { IsInt64(seqNo) && IsInt64(prevSeq) && IsInt64(ms) }

  lemma EncodedEntries(c: Codec, t: Records, es: seq<Entry>)
    ensures Encode(c, t, es) <==> Present(t, |es|) && Entries(c, t, |es|) == es
  {
    if Encode(c, t, es) {
      assert Present(t, |es|);
    }
    if Present(t, |es|) && Entries(c, t, |es|) == es {
      assert forall i :: 1 <= i <= |es| ==> Entries(c, t, |es|)[i - 1] == c.EntryOf(i, t[i]);
    }
  }

  /** Rows encode a chain exactly when they chain up to its head. */
  lemma EncodedIsIntact(c: Codec, t: Records, es: seq<Entry>)
    requires c.CollisionFree() && c.IsChain(es)
    ensures Encode(c, t, es) <==> IntactTo(c, t, |es|, c.Head(es))
  {
    EncodedEntries(c, t, es);
    hide Encode, Present, Entries, Codec.IsChain, Codec.Head, Codec.CollisionFree;
    if IntactTo(c, t, |es|, c.Head(es)) {
      HeadDeterminesChain(c, Entries(c, t, |es|), es);
    }
  }

  /** What the signing g of the checkpoint cp at record k says about the entries read up to it: they
      are the rows of the moment of signing exactly when those rows were intact, and so whenever the
      tables were then untouched. */
  ghost predicate Pins(c: Codec, g: Signing, k: int, cp: Checkpoint, seen: seq<Entry>) {
    && SignsFor(g, k, cp) && 1 <= k <= |seen|
    && (Fits(k, cp.prevSeq, cp.ms) && Fits(g.seqNo, g.prevSeq, g.ms) ==>
          && g.seqNo == k && g.prevSeq == cp.prevSeq && g.head == cp.head
          && (Encode(c, g.rows, seen[..k]) <==> IntactTo(c, g.rows, k, g.head))
          && (g.untouched ==> Encode(c, g.rows, seen[..k])))
  }

  /** So does every signing that stands for the checkpoint. */
  ghost predicate PinnedByAll(c: Codec, signed: seq<Signing>, k: int, cp: Checkpoint, seen: seq<Entry>) {
    forall i :: 0 <= i < |signed| && SignsFor(signed[i], k, cp) ==> Pins(c, signed[i], k, cp, seen)
  }

  lemma CheckpointPinsRows(c: Codec, seen: seq<Entry>, k: int, cp: Checkpoint, g: Signing)
    requires c.CollisionFree() && c.IsChain(seen) && 1 <= k <= |seen| && cp.head == c.sha(seen[k - 1])
    requires SignsFor(g, k, cp) && SignedWell(c, g)
    ensures Pins(c, g, k, cp, seen)
  {
    if Fits(k, cp.prevSeq, cp.ms) && Fits(g.seqNo, g.prevSeq, g.ms) {
      MessageInjective(g.seqNo, g.prevSeq, g.ms, g.head, k, cp.prevSeq, cp.ms, cp.head);
      hide SignsFor, Encode, IntactTo, Codec.CollisionFree, Fits;
      ChainPrefix(c, seen, k);
      EncodedIsIntact(c, g.rows, seen[..k]);
    }
  }

  /** The same for every checkpoint a walk passed. */
  lemma AllPinned(c: Codec, verify: Verifier, a: World, w: Walk, seen: seq<Entry>, good: Checkpoints)
    requires c.CollisionFree() && c.IsChain(seen) && Reads(c, verify, a, true, w, seen, good)
    requires forall i :: 0 <= i < |a.signed| ==> SignedWell(c, a.signed[i])
    ensures forall k :: k in good ==> WasSigned(a.signed, k, good[k]) && PinnedByAll(c, a.signed, k, good[k], seen)
  {
    hide Pins, SignedWell, Codec.CollisionFree, Codec.IsLinked, Unforged, SignsFor, Shows, WasSigned;
    forall k | k in good
      ensures PinnedByAll(c, a.signed, k, good[k], seen)
    {
      forall i | 0 <= i < |a.signed| && SignsFor(a.signed[i], k, good[k])
        ensures Pins(c, a.signed[i], k, good[k], seen)
      {
        CheckpointPinsRows(c, seen, k, good[k], a.signed[i]);
      }
    }
  }

  /** The rows 1..n of both tables hold the same times, columns and statuses. */
  ghost predicate SameRecords(t: Records, t': Records, n: int) {
    forall i :: 1 <= i <= n ==>
      && i in t && i in t' && t[i].ms == t'[i].ms && t[i].fields == t'[i].fields
      && (if t[i].status.Some? then t[i].status.value else 0) == (if t'[i].status.Some? then t'[i].status.value else 0)
  }

  /** Rows that encode the same entries hold the same records. */
  lemma SameEntriesSameRecords(c: Codec, t: Records, t': Records, es: seq<Entry>, n: nat)
    requires c.Lossless() && n <= |es| && Encode(c, t, es) && Encode(c, t', es[..n])
    ensures SameRecords(t, t', n)
  {
    forall i | 1 <= i <= n
      ensures i in t && i in t' && t[i].ms == t'[i].ms && t[i].fields == t'[i].fields
      ensures (if t[i].status.Some? then t[i].status.value else 0) == (if t'[i].status.Some? then t'[i].status.value else 0)
    {
      assert c.EntryOf(i, t[i]) == es[i - 1] == es[..n][i - 1] == c.EntryOf(i, t'[i]);
      EntryCovers(c, i, t[i], i, t'[i]);
    }
  }

  /** Two verdicts, two databases: entries read up to checkpoints signed as one are the same. */
  lemma SameCheckpointSameRecords(c: Codec, a: seq<Entry>, b: seq<Entry>, k: int, cp: Checkpoint, cp': Checkpoint)
    requires c.CollisionFree() && c.IsChain(a) && c.IsChain(b) && 1 <= k <= |a| && k <= |b|
    requires cp.head == c.sha(a[k - 1]) && cp'.head == c.sha(b[k - 1]) && cp.head == cp'.head
    ensures a[..k] == b[..k]
  {
    ChainPrefix(c, a, k);
    ChainPrefix(c, b, k);
    HeadDeterminesChain(c, a[..k], b[..k]);
  }

  /** The rows up to a checkpoint hold what they held when it was signed over untouched rows. */
  ghost predicate RecordsStay(t: Records, signed: seq<Signing>, good: Checkpoints) {
    forall k, i :: k in good && 0 <= i < |signed| && SignsFor(signed[i], k, good[k]) && signed[i].untouched
                   && Fits(k, good[k].prevSeq, good[k].ms) && Fits(signed[i].seqNo, signed[i].prevSeq, signed[i].ms) ==>
      SameRecords(t, signed[i].rows, k)
  }

  lemma RecordsKept(c: Codec, t: Records, signed: seq<Signing>, seen: seq<Entry>, good: Checkpoints)
    requires c.Lossless() && Encode(c, t, seen)
    requires forall k :: k in good ==> PinnedByAll(c, signed, k, good[k], seen)
    ensures RecordsStay(t, signed, good)
  {
    hide Encode, Fits, SignsFor, SameRecords, Codec.Lossless;
    forall k, i | k in good && 0 <= i < |signed| && SignsFor(signed[i], k, good[k]) && signed[i].untouched
                  && Fits(k, good[k].prevSeq, good[k].ms) && Fits(signed[i].seqNo, signed[i].prevSeq, signed[i].ms)
      ensures SameRecords(t, signed[i].rows, k)
    {
      assert PinnedByAll(c, signed, k, good[k], seen);
      assert Pins(c, signed[i], k, good[k], seen);
      SameEntriesSameRecords(c, t, signed[i].rows, seen, k);
    }
  }

  /* ----- whole runs ----- */

  /** What became of the records one process appended: the first of them stored, the rest lost. */
  datatype Fate = Fate(stored: seq<Pending>, lost: seq<Pending>)

  /** Every record ever stored, in order. */
  ghost function AllStored(fates: seq<Fate>): seq<Pending> {
    if fates == [] then [] else AllStored(fates[..|fates| - 1]) + fates[|fates| - 1].stored
  }

  /** The table holds exactly these records, in order. */
  ghost predicate Holds(t: Records, ps: seq<Pending>) { |t| == |ps| && RowsHold(t, 0, ps) }

  lemma HoldsMore(t: Records, ps: seq<Pending>, t': Records, more: seq<Pending>)
    requires Holds(t, ps) && Extends(t, t') && RowsHold(t', |t|, more) && |t'| == |t| + |more|
    ensures Holds(t', ps + more)
  {
    forall i | 0 < i <= |ps + more|
      ensures i in t' && RowHolds(t'[i], (ps + more)[i - 1])
    {
      if i <= |ps| {
        assert RowHolds(t[i], ps[i - 1]);
      } else {
        assert RowHolds(t'[i], more[i - |t| - 1]);
      }
    }
  }

  /** One process from Open to Close, or to a crash: up to `steps` locked sections of any kind, and
      edits of the tables among them if there is an editor. */
  method Life(c: Codec, db: Db, key: Key, every: int, steps: nat, closes: bool, editor: bool) returns (ghost fate: Fate)
    modifies db, key
    ensures old(History(c, key.verify, db.checkpoints, key.signed, key.forged)) ==>
              History(c, key.verify, db.checkpoints, key.signed, key.forged)
    ensures !editor && old(Untouched(c, key.verify, db.records, db.checkpoints)) ==>
              && Untouched(c, key.verify, db.records, db.checkpoints) && Extends(old(db.records), db.records)
              && |db.records| == |old(db.records)| + |fate.stored| && RowsHold(db.records, |old(db.records)|, fate.stored)
  {
    hide HonestTables, RowsHold, IsRun, Codec.LinkHead, Codec.IsLinked, History;
    var log := new Log.Open(c, db, key, every, false, editor);
    ghost var untouched := !editor && Untouched(c, key.verify, db.records, db.checkpoints);
    assert untouched ==> log.Honest() && log.baseSeq == |db.records| by {
      if untouched {
        EndOfUntouched(c, key.verify, db.records, db.checkpoints, log.seqNo, log.head, log.cpSeq);
      }
    }
    ghost var w0 := log.Now();
    var left := log.Others(false, editor, steps);
    if closes {
      ghost var w := log.Now();
      var lost := log.Close(editor);
      fate := Fate(log.stored, lost);
      if untouched {
        LaterIsTransitive(c, key.verify, w0, w, log.Now());
      }
    } else {
      fate := Fate(log.stored, log.backlog);
    }
    if untouched {
      EndOfUntouched(c, key.verify, db.records, db.checkpoints, log.seqNo, log.head, log.cpSeq);
      assert HonestTables(c, key.verify, db.records, db.checkpoints, log.seqNo, log.head, log.cpSeq);
    }
  }

  lemma EndOfUntouched(c: Codec, verify: Verifier, t: Records, cps: Checkpoints, n: int, h: Bytes, cp: int)
    ensures HonestTables(c, verify, t, cps, n, h, cp) ==> n == |t|
  {
  }

  /** Any number of processes in turn, with no editor about: the tables hold all they stored. */
  method Lives(c: Codec, db: Db, key: Key, every: int, lives: seq<(nat, bool)>) returns (ghost fates: seq<Fate>)
    requires db.records == map[] && Untouched(c, key.verify, db.records, db.checkpoints)
    modifies db, key
    ensures |fates| == |lives| && Holds(db.records, AllStored(fates))
    ensures Untouched(c, key.verify, db.records, db.checkpoints)
  {
    hide Untouched, History, Holds, AllStored, RowsHold;
    fates := [];
    NothingStored(db.records);
    for i := 0 to |lives|
      invariant |fates| == i
      invariant Untouched(c, key.verify, db.records, db.checkpoints) && Holds(db.records, AllStored(fates))
    {
      ghost var t, before := db.records, fates;
      var fate := Life(c, db, key, every, lives[i].0, lives[i].1, false);
      HoldsMore(t, AllStored(before), db.records, fate.stored);
      StoredMore(before, fate);
      fates := before + [fate];
    }
  }

  /** Every run of appends, storage failures, checkpoints, closes, crashes, and reopens under one
      key ends in tables that hold all that was stored, in order, and that Verify finds unbroken and
      counts in full, for every page size, and while `fuel` further steps interleave with it. */
  method WholeRun(c: Codec, verify: Verifier, every: int, lives: seq<(nat, bool)>, page: nat, fuel: nat)
    returns (verdict: Walk, db: Db, ghost fates: seq<Fate>, ghost stored: seq<Pending>)
    requires 1 <= page
    ensures |fates| == |lives| + 1 && stored == AllStored(fates) && |db.records| == |stored|
    ensures forall i :: 1 <= i <= |stored| ==>
              && i in db.records && db.records[i].ms == stored[i - 1].ms && db.records[i].fields == stored[i - 1].r.fields
              && db.records[i].status == if stored[i - 1].r.upstreamStatus == 0 then None else Some(stored[i - 1].r.upstreamStatus)
    ensures verdict.brk.None? && verdict.records == |db.records| && verdict.checkpoints == |db.checkpoints|
  {
    db := new Db();
    var key := new Key(verify);
    hide HonestTables, Holds, AllStored, RowsHold;
    EmptyIsHonest(c, verify);
    fates := Lives(c, db, key, every, lives);
    ghost var t := db.records;
    ghost var fate;
    verdict, fate := LastLife(c, db, key, every, page, fuel);
    HoldsMore(t, AllStored(fates), db.records, fate.stored);
    StoredMore(fates, fate);
    fates := fates + [fate];
    stored := AllStored(fates);
    HoldsMeans(db.records, stored);
  }

  lemma HoldsMeans(t: Records, ps: seq<Pending>)
    requires Holds(t, ps)
    ensures |t| == |ps|
    ensures forall i :: 1 <= i <= |ps| ==>
              && i in t && t[i].ms == ps[i - 1].ms && t[i].fields == ps[i - 1].r.fields
              && t[i].status == if ps[i - 1].r.upstreamStatus == 0 then None else Some(ps[i - 1].r.upstreamStatus)
  {
    assert forall i :: 1 <= i <= |ps| ==> i in t && RowHolds(t[i], ps[i - 1]);
  }

  /** One more process, which is asked to verify while it goes on. */
  method LastLife(c: Codec, db: Db, key: Key, every: int, page: nat, fuel: nat) returns (verdict: Walk, ghost fate: Fate)
    requires 1 <= page && Untouched(c, key.verify, db.records, db.checkpoints)
    modifies db, key
    ensures Extends(old(db.records), db.records)
    ensures |db.records| == |old(db.records)| + |fate.stored| && RowsHold(db.records, |old(db.records)|, fate.stored)
    ensures verdict.brk.None? && verdict.records == |db.records| && verdict.checkpoints == |db.checkpoints|
  {
    hide HonestTables, RowsHold, IsRun, Codec.LinkHead, Codec.IsLinked, Reads, Untouched, Unforged;
    var log := new Log.Open(c, db, key, every, false, false);
    log.LoadKey();
    var v, _, _, _ := log.Verify(page, false, fuel);
    EndOfUntouched(c, key.verify, db.records, db.checkpoints, log.seqNo, log.head, log.cpSeq);
    return v.value, Fate(log.stored, log.backlog);
  }

  lemma EmptyIsHonest(c: Codec, verify: Verifier)
    ensures HonestTables(c, verify, map[], map[], 0, c.genesis, 0)
  {
  }

  lemma StoredMore(fates: seq<Fate>, fate: Fate)
    ensures AllStored(fates + [fate]) == AllStored(fates) + fate.stored
  {
    assert (fates + [fate])[..|fates|] == fates;
  }

  lemma NothingStored(t: Records)
    ensures t == map[] ==> Holds(t, AllStored([]))
  {
  }

  /** Across restarts and edits: processes come and go while an editor writes what it likes to the
      tables; one more takes up to `steps` steps of its own among further edits, and then Verify is
      called.  If it finds no break, the tables hold exactly the entries read; and if nobody put a
      signature the key never made into the tables, then each checkpoint passed was signed, and every
      signing of it pins the entries up to it to the rows of the moment of signing. */
  method AcrossRestarts(c: Codec, verify: Verifier, every: int, lives: seq<(nat, bool)>, steps: nat, page: nat, fuel: nat)
    returns (verdict: Walk, db: Db, key: Key, ghost seen: seq<Entry>, ghost good: Checkpoints)
    requires 1 <= page && c.CollisionFree()
    ensures verdict.brk.None? ==> |seen| == verdict.records && c.IsChain(seen) && Encode(c, db.records, seen)
    ensures verdict.brk.None? ==> verdict.cpSeq == 0 || verdict.cpSeq in good
    ensures verdict.brk.None? && !key.forged ==>
              forall k :: k in good ==> WasSigned(key.signed, k, good[k]) && PinnedByAll(c, key.signed, k, good[k], seen)
    // So the rows up to a checkpoint still hold what they held when untouched rows were signed.
    ensures verdict.brk.None? && !key.forged && c.Lossless() ==> RecordsStay(db.records, key.signed, good)
  {
    db := new Db();
    key := new Key(verify);
    hide HonestTables, RowsHold, IsRun, Codec.LinkHead, Codec.IsLinked, Codec.CollisionFree, Codec.Lossless, PinnedByAll, WasSigned, Untouched, RecordsStay;
    for i := 0 to |lives|
      invariant fresh(db) && fresh(key) && key.verify == verify
      invariant History(c, verify, db.checkpoints, key.signed, key.forged)
    {
      hide History;
      var fate := Life(c, db, key, every, lives[i].0, lives[i].1, true);
    }
    var log := new Log.Open(c, db, key, every, false, true);
    log.LoadKey();
    var left := log.Others(false, true, steps);
    ghost var w := log.Now();
    var v;
    ghost var at;
    v, seen, good, at := log.Verify(page, false, fuel);
    verdict := v.value;
    HistoryLater(c, verify, w, log.Now(), key.forged);
    if verdict.brk.None? && !key.forged {
      AllPinned(c, verify, log.Now(), verdict, seen, good);
      if c.Lossless() {
        RecordsKept(c, db.records, key.signed, seen, good);
      }
    }
  }

  /** A new log that has stored one record and signed nothing. */
  method AppendOne(c: Codec, r: Record) returns (log: Log)
    ensures fresh(log) && fresh(log.db) && fresh(log.key) && log.codec == c && log.reliable
    ensures log.Valid() && log.Honest() && !log.stopped && !log.closed && log.keyLoaded
    ensures log.seqNo == |log.db.records| == 1 && log.cpSeq == 0 && log.db.checkpoints == map[] && log.key.signed == []
    ensures !log.key.forged && forall k, cp :: log.key.verify(k, cp)
  {
    var db := new Db();
    var key := new Key((k, cp) => true);
    EmptyIsHonest(c, key.verify);
    hide HonestTables, RowsHold, IsRun, Codec.IsLinked, Codec.LinkHead, Later;
    log := new Log.Open(c, db, key, 1000, true, false);
    log.LoadKey();
    log.Append(r, false);
    EndOfUntouched(c, key.verify, db.records, db.checkpoints, log.seqNo, log.head, log.cpSeq);
  }

  /** An editor takes the rows away, the next timed checkpoint is signed all the same, and the editor
      puts them back. */
  method SignWhileMissing(log: Log) returns (ghost g: Signing)
    requires log.Valid() && log.Honest() && !log.closed && log.keyLoaded && log.reliable
    requires log.seqNo == 1 && log.cpSeq == 0 && log.db.checkpoints == map[] && log.key.signed == []
    requires !log.key.forged && forall k, cp :: log.key.verify(k, cp)
    modifies log`cpSeq, log.db, log.key
    ensures log.Valid() && log.Honest() && log.key.signed == [g] && log.db.records == old(log.db.records)
    ensures g.seqNo == 1 && g.head == log.head && g.rows == map[] && !g.untouched
    ensures log.cpSeq == 1 && log.db.checkpoints.Keys == {1} && SignsFor(g, 1, log.db.checkpoints[1]) && !log.key.forged
  {
    hide HonestTables, RowsHold, IsRun, Codec.IsLinked, Codec.LinkHead, Later;
    var rows := log.db.records;
    Edit(log.db, log.key, map[], log.db.checkpoints);
    EndOfUntouched(log.codec, log.key.verify, log.db.records, log.db.checkpoints, log.seqNo, log.head, log.cpSeq);
    log.IntervalTick(false);
    g := log.key.signed[0];
    ghost var cp := log.db.checkpoints[1];
    InsertCheckpoint(log.codec, log.key.verify, rows, map[], 1, log.head, 0, cp);
    Edit(log.db, log.key, rows, log.db.checkpoints);
  }

  /** The condition is needed.  A record is appended and an editor takes its row away; the next timed
      checkpoint signs for it all the same; the editor puts the row back.  Verify finds no break and
      passes the checkpoint, though the rows it was signed over did not hold the record. */
  method SignedOverMissingRows(c: Codec, r: Record)
    returns (verdict: Walk, log: Log, ghost g: Signing, ghost seen: seq<Entry>, ghost good: Checkpoints)
    ensures log.codec == c && log.key.signed == [g] && !log.key.forged
    ensures verdict.brk.None? && verdict.records == verdict.checkpoints == verdict.cpSeq == 1
    ensures 1 in good && 1 in log.db.checkpoints && good[1] == log.db.checkpoints[1] && SignsFor(g, 1, good[1])
    ensures |seen| == 1 && Encode(c, log.db.records, seen) && g.head == c.sha(seen[0])
    ensures !g.untouched && !Encode(c, g.rows, seen)
  {
    hide HonestTables, RowsHold, IsRun, Codec.IsLinked, Later, SignsFor, Unforged;
    log := AppendOne(c, r);
    g := SignWhileMissing(log);
    var v;
    ghost var at;
    v, seen, good, at := log.Verify(1, false, 0);
    verdict := v.value;
    assert 1 !in g.rows;
  }
}
