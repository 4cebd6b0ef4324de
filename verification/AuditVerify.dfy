/** Verify's walk over the audit tables (internal/audit/audit.go): records page by page, then
    the checkpoints that cover them.

    Each page is one query, so it sees one state of the tables; nothing is assumed about what
    the tables hold, or about what happens to them between pages. */
module AuditVerify {
  import opened Basics
  import opened AuditFormat

  type Records = map<int, Row>
  type Checkpoints = map<int, Checkpoint>

  datatype Problem =
    | RecordMissing | HashMismatch | NotChained | NotAppended | NotTheRecordAppended | CoveredRecordMissing
    | BadSignature | CheckpointMissing | DoesNotFollow | CheckpointMismatch

  datatype Break = Break(seqNo: int, problem: Problem)

  /* ----- ORDER BY seq ----- */

  ghost predicate IsNext(keys: set<int>, after: int, k: int) {
    k in keys && after < k && forall j :: j in keys && after < j ==> k <= j
  }

  lemma NextExists(keys: set<int>, after: int, j: int) returns (k: int)
    requires j in keys && after < j
    ensures IsNext(keys, after, k)
    decreases j - after
  {
    if i :| i in keys && after < i < j {
      k := NextExists(keys, after, i);
    } else {
      k := j;
    }
  }

  /** The first key after `after`, as a query ordered by seq returns it. */
  method Next(keys: set<int>, after: int) returns (o: Option<int>)
    ensures o.None? ==> forall j :: j in keys ==> j <= after
    ensures o.Some? ==> IsNext(keys, after, o.value)
  {
    if j :| j in keys && after < j {
      ghost var least := NextExists(keys, after, j);
      var k :| k in keys && after < k && forall j :: j in keys && after < j ==> k <= j;
      return Some(k);
    }
    return None;
  }

  /* ----- tables nobody but the log has written ----- */

  function HashAt(c: Codec, t: Records, i: int): Bytes { if i in t then t[i].hash else c.genesis }

  ghost predicate IsIntact(c: Codec, t: Records, k: int)
    requires k in t
  {
    t[k].hash == c.sha(c.EntryOf(k, t[k])) && t[k].prevHash == HashAt(c, t, k - 1)
  }

  ghost predicate HonestRecords(c: Codec, t: Records) {
    && (forall k :: k in t <==> 1 <= k <= |t|)
    && (forall k :: k in t ==> IsIntact(c, t, k))
  }

  ghost predicate IsPrevious(cps: Checkpoints, k: int, p: int) {
    0 <= p < k && (p == 0 || p in cps) && forall j :: j in cps && j < k ==> j <= p
  }

  /** Whether the audit signing key's signature on the checkpoint at a record verifies. */
  type Verifier = (int, Checkpoint) -> bool

  ghost predicate HonestCheckpoints(verify: Verifier, t: Records, cps: Checkpoints) {
    forall k :: k in cps ==>
      && k in t
      && verify(k, cps[k])
      && cps[k].head == t[k].hash
      && IsPrevious(cps, k, cps[k].prevSeq)
  }

  /** How many checkpoints cover records up to n. */
  ghost function CountTo(cps: Checkpoints, n: int): nat { |set k | k in cps && k <= n| }

  lemma CountNext(cps: Checkpoints, n: int, k: int)
    requires IsNext(cps.Keys, n, k)
    ensures CountTo(cps, k) == CountTo(cps, n) + 1
  {
    assert (set j | j in cps && j <= k) == (set j | j in cps && j <= n) + {k};
  }

  lemma CountAll(cps: Checkpoints, n: int)
    requires forall k :: k in cps ==> k <= n
    ensures CountTo(cps, n) == |cps|
  {
    assert (set k | k in cps && k <= n) == cps.Keys;
  }

  /* ----- rows that chain up to a head ----- */

  ghost predicate Present(t: Records, n: int) { forall i :: 1 <= i <= n ==> i in t }

  ghost function Entries(c: Codec, t: Records, n: nat): (es: seq<Entry>)
    requires Present(t, n)
    ensures |es| == n
  {
    seq(n, i requires 0 <= i < n => c.EntryOf(i + 1, t[i + 1]))
  }

  /** The rows up to n are all there and chain up to the head. */
  ghost predicate IntactTo(c: Codec, t: Records, n: int, head: Bytes) {
    0 <= n && Present(t, n) && c.IsChain(Entries(c, t, n)) && c.Head(Entries(c, t, n)) == head
  }

  lemma EntriesMore(c: Codec, t: Records, n: nat)
    requires Present(t, n) && n + 1 in t
    ensures Present(t, n + 1) && Entries(c, t, n + 1) == Entries(c, t, n) + [c.EntryOf(n + 1, t[n + 1])]
  {
  }

  lemma IntactMore(c: Codec, t: Records, n: nat)
    requires n + 1 in t && IntactTo(c, t, n, t[n + 1].prevHash)
    ensures IntactTo(c, t, n + 1, c.sha(c.EntryOf(n + 1, t[n + 1])))
  {
    EntriesMore(c, t, n);
    hide Present, Entries, Codec.IsLinked, Codec.LinkHead;
    LinkExtend(c, 0, c.genesis, Entries(c, t, n), c.EntryOf(n + 1, t[n + 1]));
  }

  /** In untouched records every prefix is intact. */
  lemma {:induction false} HonestIsIntact(c: Codec, t: Records, n: nat)
    requires HonestRecords(c, t) && n <= |t|
    ensures IntactTo(c, t, n, HashAt(c, t, n))
  {
    if n > 0 {
      HonestIsIntact(c, t, n - 1);
      assert n in t && IsIntact(c, t, n);
      hide IntactTo;
      IntactMore(c, t, n - 1);
    } else {
      assert 0 !in t;
    }
  }

  /* ----- the walk ----- */

  /** The rows 1..|es| of t read back as es and carry its hashes. */
  ghost predicate Shows(c: Codec, t: Records, es: seq<Entry>) {
    forall i :: 1 <= i <= |es| ==> i in t && c.EntryOf(i, t[i]) == es[i - 1] && t[i].hash == c.sha(es[i - 1])
  }

  lemma ShowsOneMore(c: Codec, t: Records, es: seq<Entry>, k: int)
    requires Shows(c, t, es) && k == |es| + 1 && k in t && t[k].hash == c.sha(c.EntryOf(k, t[k]))
    ensures Shows(c, t, es + [c.EntryOf(k, t[k])])
  {
  }

  /** In untouched records the next row is the next number, intact and chained. */
  lemma HonestNext(c: Codec, t: Records, n: int, k: int)
    requires HonestRecords(c, t) && 0 <= n <= |t| && IsNext(t.Keys, n, k)
    ensures k == n + 1 <= |t| && IsIntact(c, t, k)
  {
    assert k in t;
    assert n + 1 in t;
  }

  /** In untouched checkpoints the next one verifies, follows, and matches its record. */
  lemma HonestNextCheckpoint(verify: Verifier, t: Records, cps: Checkpoints, n: int, k: int)
    requires HonestCheckpoints(verify, t, cps) && 0 <= n && (n == 0 || n in cps) && IsNext(cps.Keys, n, k)
    ensures k in t && verify(k, cps[k]) && cps[k].prevSeq == n && cps[k].head == t[k].hash
  {
    assert k in cps;
    assert IsPrevious(cps, k, cps[k].prevSeq);
  }

  /** The verdict on one row, given the records found intact before it. */
  function CheckRow(c: Codec, records: int, prev: Bytes, k: int, row: Row): Option<Break> {
    if k != records + 1 then Some(Break(records + 1, RecordMissing))
    else if c.sha(c.EntryOf(k, row)) != row.hash then Some(Break(k, HashMismatch))
    else if row.prevHash != prev then Some(Break(k, NotChained))
    else None
  }

  function CheckCheckpoint(verify: Verifier, cpSeq: int, k: int, cp: Checkpoint, recordHash: Bytes): Option<Break> {
    if !verify(k, cp) then Some(Break(k, BadSignature))
    else if cp.prevSeq > cpSeq then Some(Break(cp.prevSeq, CheckpointMissing))
    else if cp.prevSeq < cpSeq then Some(Break(k, DoesNotFollow))
    else if cp.head != recordHash then Some(Break(k, CheckpointMismatch))
    else None
  }

  /** Where Verify stands: records and checkpoints passed, the hash to chain to, and any break. */
  datatype Walk = Walk(records: int, checkpoints: nat, brk: Option<Break>, prev: Bytes, cpSeq: int)

  function Start(c: Codec): Walk { Walk(0, 0, None, c.genesis, 0) }

  /** The entries `seen` so far are one chain, whatever the tables hold by now. */
  ghost predicate Follows(c: Codec, w: Walk, seen: seq<Entry>) {
    w.records == |seen| && c.IsChain(seen) && w.prev == c.Head(seen) && 0 <= w.cpSeq <= w.records
  }

  /** Each checkpoint found good is signed and names the head of the records it covers. */
  ghost predicate Covers(c: Codec, verify: Verifier, cpSeq: int, seen: seq<Entry>, good: Checkpoints) {
    && (cpSeq == 0 || cpSeq in good)
    && forall k :: k in good ==>
         1 <= k <= cpSeq && k <= |seen| && verify(k, good[k]) && good[k].head == c.sha(seen[k - 1])
  }

  /** Where a walk over untouched tables stands. */
  ghost predicate OnTrackRecords(c: Codec, t: Records, records: int, prev: Bytes) {
    HonestRecords(c, t) && records <= |t| && prev == HashAt(c, t, records)
  }

  ghost predicate OnTrackCheckpoints(cps: Checkpoints, cpSeq: int, checkpoints: int) {
    (cpSeq == 0 || cpSeq in cps) && checkpoints == CountTo(cps, cpSeq)
  }

  /** What one row that passes adds to a walk. */
  lemma RowPasses(c: Codec, t: Records, seen: seq<Entry>, k: int)
    requires c.IsChain(seen) && IsNext(t.Keys, |seen|, k) && CheckRow(c, |seen|, c.Head(seen), k, t[k]).None?
    ensures var seen' := seen + [c.EntryOf(k, t[k])];
            && c.IsChain(seen') && c.Head(seen') == t[k].hash && k == |seen'|
            && (Shows(c, t, seen) ==> Shows(c, t, seen'))
            && (OnTrackRecords(c, t, |seen|, c.Head(seen)) ==> OnTrackRecords(c, t, k, t[k].hash))
  {
    LinkExtend(c, 0, c.genesis, seen, c.EntryOf(k, t[k]));
    if Shows(c, t, seen) {
      ShowsOneMore(c, t, seen, k);
    }
    assert OnTrackRecords(c, t, |seen|, c.Head(seen)) ==> k in t;
  }

  /** In untouched records no row fails. */
  lemma HonestRowPasses(c: Codec, t: Records, records: int, prev: Bytes, k: int)
    requires 0 <= records && IsNext(t.Keys, records, k) && OnTrackRecords(c, t, records, prev)
    ensures CheckRow(c, records, prev, k, t[k]).None?
  {
    HonestNext(c, t, records, k);
  }

  /* ----- a break is one the tables show ----- */

  /** The record past those read is missing, does not match its hash, or does not chain to them. */
  ghost predicate RecordBreak(c: Codec, t: Records, seen: seq<Entry>, b: Break) {
    b.seqNo == |seen| + 1 &&
    match b.problem
    case RecordMissing => b.seqNo !in t && exists k :: k in t && b.seqNo < k
    case HashMismatch => b.seqNo in t && t[b.seqNo].hash != c.sha(c.EntryOf(b.seqNo, t[b.seqNo]))
    case NotChained => b.seqNo in t && t[b.seqNo].prevHash != c.Head(seen)
    case _ => false
  }

  /** A checkpoint does not verify, does not follow the last one that did, which covers record cpSeq, or
      does not match its record; or the one a signed checkpoint names before it is missing. */
  ghost predicate CheckpointBreak(verify: Verifier, t: Records, cps: Checkpoints, cpSeq: int, b: Break) {
    match b.problem
    case BadSignature => b.seqNo in cps && !verify(b.seqNo, cps[b.seqNo])
    case CheckpointMissing =>
      cpSeq < b.seqNo && exists k :: k in cps && verify(k, cps[k]) && cps[k].prevSeq == b.seqNo && (b.seqNo < k ==> b.seqNo !in cps)
    case DoesNotFollow => b.seqNo in cps && cps[b.seqNo].prevSeq < cpSeq
    case CheckpointMismatch => b.seqNo in cps && cps[b.seqNo].head != if b.seqNo in t then t[b.seqNo].hash else []
    case _ => false
  }

  lemma RowFails(c: Codec, t: Records, seen: seq<Entry>, k: int)
    requires IsNext(t.Keys, |seen|, k) && CheckRow(c, |seen|, c.Head(seen), k, t[k]).Some?
    ensures RecordBreak(c, t, seen, CheckRow(c, |seen|, c.Head(seen), k, t[k]).value)
  {
  }

  lemma CheckpointFails(verify: Verifier, t: Records, cps: Checkpoints, cpSeq: int, k: int)
    requires IsNext(cps.Keys, cpSeq, k)
    requires CheckCheckpoint(verify, cpSeq, k, cps[k], if k in t then t[k].hash else []).Some?
    ensures CheckpointBreak(verify, t, cps, cpSeq, CheckCheckpoint(verify, cpSeq, k, cps[k], if k in t then t[k].hash else []).value)
  {
  }

  /** Checks the records after `w.records`, up to `page` of them, and counts how many it read. */
  method VerifyPage(c: Codec, t: Records, page: nat, w: Walk, ghost seen: seq<Entry>)
    returns (w': Walk, n: nat, ghost seen': seq<Entry>)
    requires Follows(c, w, seen) && w.brk.None? && 1 <= page
    ensures Follows(c, w', seen') && n <= page && seen <= seen'
    ensures w' == w.(records := w'.records, prev := w'.prev, brk := w'.brk)
    ensures Shows(c, t, seen) ==> Shows(c, t, seen')
    ensures w'.brk.Some? ==> RecordBreak(c, t, seen', w'.brk.value)
    ensures w'.brk.None? && n < page ==> forall k :: k in t ==> k <= w'.records
    ensures w'.brk.None? && n == page ==> w'.records == w.records + page && w'.records in t
    ensures OnTrackRecords(c, t, w.records, w.prev) ==>
              w'.brk.None? && OnTrackRecords(c, t, w'.records, w'.prev)
  {
    var records, prev := w.records, w.prev;
    n, seen' := 0, seen;
    ghost var onTrack := OnTrackRecords(c, t, records, prev);
    ghost var shown := Shows(c, t, seen);
    while n < page
      invariant n <= page && records == w.records + n == |seen'| && (0 < n ==> records in t)
      invariant c.IsChain(seen') && prev == c.Head(seen') && seen <= seen'
      invariant shown ==> Shows(c, t, seen')
      invariant onTrack ==> OnTrackRecords(c, t, records, prev)
    {
      var next := Next(t.Keys, records);
      if next.None? {
        break;
      }
      n := n + 1;
      var k := next.value;
      if onTrack {
        HonestRowPasses(c, t, records, prev, k);
      }
      var brk := CheckRow(c, records, prev, k, t[k]);
      if brk.Some? {
        RowFails(c, t, seen', k);
        return w.(records := records, prev := prev, brk := brk), n, seen';
      }
      RowPasses(c, t, seen', k);
      records, prev, seen' := k, t[k].hash, seen' + [c.EntryOf(k, t[k])];
    }
    w' := w.(records := records, prev := prev);
  }

  /** What one checkpoint that passes adds to a walk. */
  lemma CheckpointPasses(c: Codec, verify: Verifier, t: Records, cps: Checkpoints, cpSeq: int, checkpoints: int, k: int,
                         seen: seq<Entry>, good: Checkpoints)
    requires IsNext(cps.Keys, cpSeq, k) && 0 <= cpSeq && k <= |seen|
    requires CheckCheckpoint(verify, cpSeq, k, cps[k], if k in t then t[k].hash else []).None?
    ensures Covers(c, verify, cpSeq, seen, good) && Shows(c, t, seen) ==> Covers(c, verify, k, seen, good[k := cps[k]])
    ensures OnTrackCheckpoints(cps, cpSeq, checkpoints) ==> OnTrackCheckpoints(cps, k, checkpoints + 1)
  {
    CountNext(cps, cpSeq, k);
  }

  lemma HonestCheckpointPasses(verify: Verifier, t: Records, cps: Checkpoints, cpSeq: int, checkpoints: int, k: int)
    requires HonestCheckpoints(verify, t, cps) && OnTrackCheckpoints(cps, cpSeq, checkpoints)
    requires 0 <= cpSeq && IsNext(cps.Keys, cpSeq, k)
    ensures CheckCheckpoint(verify, cpSeq, k, cps[k], if k in t then t[k].hash else []).None?
  {
    HonestNextCheckpoint(verify, t, cps, cpSeq, k);
  }

  /** Checks the checkpoints after `w.cpSeq` covering records up to `w.records`, up to `page`. */
  method VerifyCheckpointPage(c: Codec, verify: Verifier, t: Records, cps: Checkpoints, page: nat,
                              w: Walk, ghost seen: seq<Entry>, ghost good: Checkpoints)
    returns (w': Walk, n: nat, ghost good': Checkpoints)
    requires Follows(c, w, seen) && w.brk.None? && 1 <= page
    ensures w'.brk.None? ==> w' == w.(checkpoints := w'.checkpoints, cpSeq := w'.cpSeq) && Follows(c, w', seen)
    ensures w'.brk.Some? ==> w'.records == w'.cpSeq && CheckpointBreak(verify, t, cps, w'.cpSeq, w'.brk.value)
    ensures n <= page && (w'.brk.None? && n == page ==> w.cpSeq < w'.cpSeq)
    ensures Covers(c, verify, w.cpSeq, seen, good) && Shows(c, t, seen) ==> Covers(c, verify, w'.cpSeq, seen, good')
    ensures forall k :: k in good' ==> (k in good && good'[k] == good[k]) || (k in cps && good'[k] == cps[k])
    ensures HonestCheckpoints(verify, t, cps) && OnTrackCheckpoints(cps, w.cpSeq, w.checkpoints) ==>
              w'.brk.None? && OnTrackCheckpoints(cps, w'.cpSeq, w'.checkpoints)
    ensures w'.brk.None? && n < page ==> forall k :: k in cps && k <= w'.records ==> k <= w'.cpSeq
  {
    hide Covers, Shows, HonestCheckpoints, OnTrackCheckpoints, CheckCheckpoint, CheckpointBreak, Codec.IsLinked, Codec.LinkHead;
    var cpSeq, checkpoints := w.cpSeq, w.checkpoints;
    n, good' := 0, good;
    ghost var covered := Covers(c, verify, w.cpSeq, seen, good) && Shows(c, t, seen);
    ghost var onTrack := HonestCheckpoints(verify, t, cps) && OnTrackCheckpoints(cps, w.cpSeq, w.checkpoints);
    while n < page
      invariant n <= page && w.cpSeq <= cpSeq <= w.records && (0 < n ==> w.cpSeq < cpSeq)
      invariant forall k :: k in good' ==> (k in good && good'[k] == good[k]) || (k in cps && good'[k] == cps[k])
      invariant covered ==> Covers(c, verify, cpSeq, seen, good')
      invariant onTrack ==> OnTrackCheckpoints(cps, cpSeq, checkpoints)
    {
      var next := Next(cps.Keys, cpSeq);
      if next.None? || next.value > w.records {
        break;
      }
      n := n + 1;
      var k := next.value;
      if onTrack {
        HonestCheckpointPasses(verify, t, cps, cpSeq, checkpoints, k);
      }
      var brk := CheckCheckpoint(verify, cpSeq, k, cps[k], if k in t then t[k].hash else []);
      if brk.Some? {
        CheckpointFails(verify, t, cps, cpSeq, k);
        return w.(records := cpSeq, checkpoints := checkpoints, cpSeq := cpSeq, brk := brk), n, good';
      }
      CheckpointPasses(c, verify, t, cps, cpSeq, checkpoints, k, seen, good');
      cpSeq, checkpoints, good' := k, checkpoints + 1, good'[k := cps[k]];
    }
    w' := w.(checkpoints := checkpoints, cpSeq := cpSeq);
  }
}
