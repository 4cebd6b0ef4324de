/** What the audit log hashes and signs (internal/audit/audit.go): entries, the hash chain
    they form, and the bytes a checkpoint's signature covers.

    The hash, the JSON text of a string, the time format, and the hash the chain starts from (32 zero
    bytes) are parameters.  The only thing ever asked of them is that the hash
    is collision free on encoded entries. */
module AuditFormat {

  import opened Basics

  /** The text columns of an Audit Record. */
  datatype Fields<T> = Fields(agentTokenId: T, secretName: T, delivery: T, upstream: T,
                              upstreamHost: T, decision: T, reason: T, failure: T)

  /** A record as a Delivery reports it; status 0 means there was no Upstream response. */
  datatype Record = Record(fields: Fields<Bytes>, upstreamStatus: int)

  /** A row of audit_records, keyed by seq. */
  datatype Row = Row(ms: int, fields: Fields<Bytes>, status: Option<int>, prevHash: Bytes, hash: Bytes)

  /** A row of audit_checkpoints, keyed by seq. */
  datatype Checkpoint = Checkpoint(prevSeq: int, ms: int, head: Bytes, signature: Bytes)

  /** What the hash covers: the entry as its JSON encoding shows it. */
  datatype Entry = Entry(seqNo: int, time: string, fields: Fields<string>, status: Option<int>, prevHash: Bytes)

  datatype Codec = Codec(time: int -> string, text: Bytes -> string, sha: Entry -> Bytes, genesis: Bytes)
  {
    function Shown(f: Fields<Bytes>): Fields<string> {
      Fields(text(f.agentTokenId), text(f.secretName), text(f.delivery), text(f.upstream),
             text(f.upstreamHost), text(f.decision), text(f.reason), text(f.failure))
    }

    function NewEntry(seqNo: int, ms: int, r: Record, prevHash: Bytes): Entry {
      Entry(seqNo, time(ms), Shown(r.fields), if r.upstreamStatus != 0 then Some(r.upstreamStatus) else None, prevHash)
    }

    /** The entry a stored row reads back as; a NULL status reads as 0. */
    function EntryOf(seqNo: int, row: Row): Entry {
      NewEntry(seqNo, row.ms, Record(row.fields, if row.status.Some? then row.status.value else 0), row.prevHash)
    }

    ghost predicate CollisionFree() {
      forall a, b :: sha(a) == sha(b) ==> a == b
    }

    /** The JSON text of a string and the time format lose nothing. */
    ghost predicate Lossless() {
      && (forall a, b :: time(a) == time(b) ==> a == b)
      && (forall a, b :: text(a) == text(b) ==> a == b)
    }

    /** Numbered from 1 without gaps, each entry chained to the one before it. */
    ghost predicate IsChain(es: seq<Entry>) { IsLinked(0, genesis, es) }

    /** A run of entries that continues a chain after record `base`, whose hash is `h`. */
    ghost predicate IsLinked(base: int, h: Bytes, es: seq<Entry>)
      decreases |es|
    {
      es == [] ||
      var n := |es| - 1;
      es[n].seqNo == base + n + 1 && es[n].prevHash == LinkHead(h, es[..n]) && IsLinked(base, h, es[..n])
    }

    ghost function LinkHead(h: Bytes, es: seq<Entry>): Bytes {
      if es == [] then h else sha(es[|es| - 1])
    }

    /** The hash the next entry chains to. */
    ghost function Head(es: seq<Entry>): Bytes { LinkHead(genesis, es) }
  }

  /* ----- what an entry covers ----- */

  /** An entry covers its number, its time, each of the eight columns, the status and the hash before
      it, and nothing else. */
  lemma EntryCovers(c: Codec, k: int, row: Row, k': int, row': Row)
    ensures c.EntryOf(k, row) == c.EntryOf(k', row') <==>
              && k == k' && c.time(row.ms) == c.time(row'.ms) && row.prevHash == row'.prevHash
              && c.text(row.fields.agentTokenId) == c.text(row'.fields.agentTokenId)
              && c.text(row.fields.secretName) == c.text(row'.fields.secretName)
              && c.text(row.fields.delivery) == c.text(row'.fields.delivery)
              && c.text(row.fields.upstream) == c.text(row'.fields.upstream)
              && c.text(row.fields.upstreamHost) == c.text(row'.fields.upstreamHost)
              && c.text(row.fields.decision) == c.text(row'.fields.decision)
              && c.text(row.fields.reason) == c.text(row'.fields.reason)
              && c.text(row.fields.failure) == c.text(row'.fields.failure)
              && (if row.status.Some? then row.status.value else 0) == (if row'.status.Some? then row'.status.value else 0)
  {
  }

  /** A row that reads back as the entry of a record holds that record. */
  lemma ReadsBackTheRecord(c: Codec, k: int, row: Row, ms: int, r: Record, prevHash: Bytes)
    requires c.Lossless() && c.EntryOf(k, row) == c.NewEntry(k, ms, r, prevHash)
    ensures row.ms == ms && row.fields == r.fields && row.prevHash == prevHash
    ensures (if row.status.Some? then row.status.value else 0) == r.upstreamStatus
  {
    EntryCovers(c, k, row, k, Row(ms, r.fields, Some(r.upstreamStatus), prevHash, []));
  }

  /* ----- a head determines its chain ----- */

  lemma LinkExtend(c: Codec, base: int, h: Bytes, es: seq<Entry>, e: Entry)
    requires c.IsLinked(base, h, es) && e.seqNo == base + |es| + 1 && e.prevHash == c.LinkHead(h, es)
    ensures c.IsLinked(base, h, es + [e]) && c.LinkHead(h, es + [e]) == c.sha(e)
  {
    assert (es + [e])[..|es|] == es;
  }

  lemma {:induction false} ChainPrefix(c: Codec, es: seq<Entry>, n: nat)
    requires c.IsChain(es) && n <= |es|
    ensures c.IsChain(es[..n])
  {
    if n == |es| {
      assert es[..n] == es;
    } else {
      ChainPrefix(c, es[..|es| - 1], n);
      assert es[..|es| - 1][..n] == es[..n];
    }
  }

  /** Two chains of one length with the same head are the same chain. */
  lemma HeadDeterminesChain(c: Codec, a: seq<Entry>, b: seq<Entry>)
    requires c.CollisionFree() && c.IsChain(a) && c.IsChain(b)
    requires |a| == |b| && c.Head(a) == c.Head(b)
    ensures a == b
  {
    HeadDeterminesTail(c, a, 0, c.genesis, b);
    assert a[0..] == a;
  }

  /** The last entry of a linked run, and the run before it. */
  lemma LinkLast(c: Codec, base: int, h: Bytes, es: seq<Entry>)
    requires c.IsLinked(base, h, es) && es != []
    ensures var n := |es| - 1; c.LinkHead(h, es) == c.sha(es[n]) && c.IsLinked(base, h, es[..n]) && c.LinkHead(h, es[..n]) == es[n].prevHash
  {
  }

  /** A chain ending where a linked run ends holds that whole run as its tail. */
  lemma {:induction false} HeadDeterminesTail(c: Codec, chain: seq<Entry>, base: nat, h: Bytes, run: seq<Entry>)
    requires c.CollisionFree() && c.IsChain(chain) && c.IsLinked(base, h, run)
    requires |chain| == base + |run| && c.Head(chain) == c.LinkHead(h, run)
    ensures chain[base..] == run && c.Head(chain[..base]) == h
  {
    if run == [] {
      assert chain[..base] == chain;
    } else {
      var n, k := |chain| - 1, |run| - 1;
      LinkLast(c, 0, c.genesis, chain);
      LinkLast(c, base, h, run);
      assert chain[n] == run[k];
      hide Codec.IsLinked, Codec.LinkHead, Codec.CollisionFree;
      HeadDeterminesTail(c, chain[..n], base, h, run[..k]);
      assert chain[base..] == chain[..n][base..] + [chain[n]];
      assert chain[..n][..base] == chain[..base];
      assert run == run[..k] + [run[k]];
    }
  }

  /* ----- what a checkpoint's signature covers ----- */

  /** The low k bytes of n, most significant first. */
  function BigEndian(n: nat, k: nat): (r: Bytes)
    ensures |r| == k
  {
    if k == 0 then [] else BigEndian(n / 256, k - 1) + [n % 256]
  }

  ghost function Pow256(k: nat): nat { if k == 0 then 1 else 256 * Pow256(k - 1) }

  lemma {:induction false} BigEndianInjective(a: nat, b: nat, k: nat)
    requires a < Pow256(k) && b < Pow256(k) && BigEndian(a, k) == BigEndian(b, k)
    ensures a == b
  {
    if k > 0 {
      var x, y := BigEndian(a / 256, k - 1), BigEndian(b / 256, k - 1);
      assert BigEndian(a, k)[..k - 1] == x && BigEndian(b, k)[..k - 1] == y;
      assert BigEndian(a, k)[k - 1] == a % 256 && BigEndian(b, k)[k - 1] == b % 256;
      BigEndianInjective(a / 256, b / 256, k - 1);
    }
  }

  /** The number that bytes stand for, the most significant first. */
  ghost function FromBytes(b: Bytes): nat {
    if b == [] then 0 else 256 * FromBytes(b[..|b| - 1]) + b[|b| - 1]
  }

  lemma {:induction false} BigEndianValue(n: nat, k: nat)
    requires n < Pow256(k)
    ensures FromBytes(BigEndian(n, k)) == n
  {
    if k > 0 {
      BigEndianValue(n / 256, k - 1);
      assert BigEndian(n, k)[..k - 1] == BigEndian(n / 256, k - 1);
    }
  }

  const TWO64 := 0x1_0000_0000_0000_0000

  predicate IsInt64(x: int) { -TWO64 / 2 <= x < TWO64 / 2 }

  /** uint64(x) for an int64 x. */
  function Unsigned(x: int): nat { x % TWO64 }

  function Be64(x: int): (r: Bytes)
    ensures |r| == 8
  {
    BigEndian(Unsigned(x), 8)
  }

  lemma Be64Injective(x: int, y: int)
    requires IsInt64(x) && IsInt64(y) && Be64(x) == Be64(y)
    ensures x == y
  {
    assert Pow256(8) == TWO64 by {
      assert Pow256(4) == 0x1_0000_0000;
    }
    BigEndianInjective(Unsigned(x), Unsigned(y), 8);
  }

  /** "TrustedCourier audit checkpoint" and a zero byte. */
  function Context(): (r: Bytes)
    ensures |r| == 32
  {
    [84, 114, 117, 115, 116, 101, 100, 67, 111, 117, 114, 105, 101, 114, 32,
     97, 117, 100, 105, 116, 32, 99, 104, 101, 99, 107, 112, 111, 105, 110, 116, 0]
  }

  function Message(seqNo: int, prevSeq: int, ms: int, head: Bytes): Bytes {
    Context() + Be64(seqNo) + Be64(prevSeq) + Be64(ms) + head
  }

  /** Where each part of the message is. */
  lemma MessageLayout(seqNo: int, prevSeq: int, ms: int, head: Bytes)
    ensures var m := Message(seqNo, prevSeq, ms, head);
            && |m| == 56 + |head| && m[..32] == Context() && m[56..] == head
            && FromBytes(m[32..40]) == seqNo % 0x1_0000_0000_0000_0000
            && FromBytes(m[40..48]) == prevSeq % 0x1_0000_0000_0000_0000
            && FromBytes(m[48..56]) == ms % 0x1_0000_0000_0000_0000
  {
    var m := Message(seqNo, prevSeq, ms, head);
    assert m[32..40] == Be64(seqNo) && m[40..48] == Be64(prevSeq) && m[48..56] == Be64(ms);
    Be64Value(seqNo);
    Be64Value(prevSeq);
    Be64Value(ms);
  }

  lemma Be64Value(x: int)
    ensures FromBytes(Be64(x)) == x % 0x1_0000_0000_0000_0000
  {
    assert Pow256(8) == TWO64 by {
      assert Pow256(4) == 0x1_0000_0000;
    }
    BigEndianValue(Unsigned(x), 8);
  }

  /** One signed message stands for one checkpoint. */
  lemma MessageInjective(s: int, p: int, t: int, h: Bytes, s': int, p': int, t': int, h': Bytes)
    requires IsInt64(s) && IsInt64(p) && IsInt64(t) && IsInt64(s') && IsInt64(p') && IsInt64(t')
    requires Message(s, p, t, h) == Message(s', p', t', h')
    ensures s == s' && p == p' && t == t' && h == h'
  {
    var m, m' := Message(s, p, t, h), Message(s', p', t', h');
    assert m[32..40] == Be64(s) && m'[32..40] == Be64(s');
    assert m[40..48] == Be64(p) && m'[40..48] == Be64(p');
    assert m[48..56] == Be64(t) && m'[48..56] == Be64(t');
    assert m[56..] == h && m'[56..] == h';
    Be64Injective(s, s');
    Be64Injective(p, p');
    Be64Injective(t, t');
  }
}
