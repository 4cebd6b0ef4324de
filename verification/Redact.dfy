/** Redaction (internal/redact/redact.go): masking every exact match of a Secret.

    `Masked` is the reference: a byte is masked exactly when some occurrence of
    some needle covers it.  `Mask` computes it on a whole string; `Writer`
    computes it on a stream, holding back only bytes that could begin a match. */
module Redact {

  import opened Basics

  /* ----- the reference: which bytes a match covers ----- */

  ghost predicate MatchAt(b: Bytes, n: Bytes, i: int) {
    0 <= i && i + |n| <= |b| && b[i..i + |n|] == n
  }

  ghost predicate Covered(b: Bytes, needles: seq<Bytes>, j: int) {
    exists n, i :: n in needles && n != [] && MatchAt(b, n, i) && i <= j < i + |n|
  }

  /** One flag per byte: is it covered? */
  ghost function Flags(b: Bytes, needles: seq<Bytes>): (f: seq<bool>)
    ensures |f| == |b|
  {
    seq(|b|, j => Covered(b, needles, j))
  }

  function Or(a: seq<bool>, b: seq<bool>): (r: seq<bool>)
    requires |a| == |b|
    ensures |r| == |a|
  {
    seq(|a|, j requires 0 <= j < |a| => a[j] || b[j])
  }

  function Blend(b: Bytes, flags: seq<bool>, mask: Byte): (r: Bytes)
    requires |b| == |flags|
    ensures |r| == |b|
  {
    seq(|b|, j requires 0 <= j < |b| => if flags[j] then mask else b[j])
  }

  ghost function Masked(b: Bytes, needles: seq<Bytes>, mask: Byte): (r: Bytes)
    ensures |r| == |b|
  {
    Blend(b, Flags(b, needles), mask)
  }

  /** Masking, told by slices: a slice that is a needle becomes a run of the mask byte, and a byte in
      no such slice stays. */
  lemma MaskedMeans(b: Bytes, needles: seq<Bytes>, mask: Byte)
    ensures forall i, e :: 0 <= i < e <= |b| && b[i..e] in needles ==>
              forall k :: i <= k < e ==> Masked(b, needles, mask)[k] == mask
    ensures forall k :: 0 <= k < |b| && (forall i, e :: 0 <= i <= k < e <= |b| ==> b[i..e] !in needles) ==>
              Masked(b, needles, mask)[k] == b[k]
  {
    forall i, e, k | 0 <= i <= k < e <= |b| && b[i..e] in needles
      ensures Masked(b, needles, mask)[k] == mask
    {
      assert MatchAt(b, b[i..e], i);
      assert Covered(b, needles, k);
    }
    forall k | 0 <= k < |b| && (forall i, e :: 0 <= i <= k < e <= |b| ==> b[i..e] !in needles)
      ensures Masked(b, needles, mask)[k] == b[k]
    {
      assert !Covered(b, needles, k);
    }
  }

  /** The last `h` bytes of `b` are a proper prefix of `n`. */
  ghost predicate EndsBeginning(b: Bytes, n: Bytes, h: int) {
    0 <= h <= |b| && h < |n| && n[..h] == b[|b| - h..]
  }

  ghost predicate Partial(b: Bytes, needles: seq<Bytes>, h: int) {
    0 <= h <= |b| && (h == 0 || exists n :: n in needles && EndsBeginning(b, n, h))
  }

  /** A match could begin with the last h bytes of b, and with no more of them. */
  ghost predicate IsHold(b: Bytes, needles: seq<Bytes>, h: int) {
    Partial(b, needles, h) && forall k :: h < k ==> !Partial(b, needles, k)
  }

  ghost predicate Clean(b: Bytes, needles: seq<Bytes>) {
    forall n, i :: n in needles && n != [] ==> !MatchAt(b, n, i)
  }

  /* ----- why holding back the longest partial match is enough ----- */

  lemma PartialOfWhole(x: Bytes, p: Bytes, needles: seq<Bytes>, k: int)
    requires Partial(x + p, needles, k) && |p| < k
    ensures Partial(x, needles, k - |p|)
  {
    var n :| n in needles && EndsBeginning(x + p, n, k);
    assert n[..k][..k - |p|] == n[..k - |p|];
    assert (x + p)[|x + p| - k..][..k - |p|] == x[|x| - (k - |p|)..];
    assert EndsBeginning(x, n, k - |p|);
  }

  lemma PartialOfTail(x: Bytes, base: int, p: Bytes, needles: seq<Bytes>, k: int)
    requires 0 <= base <= |x| && 0 <= k <= |x| - base + |p|
    ensures Partial(x + p, needles, k) <==> Partial(x[base..] + p, needles, k)
  {
    assert x[base..] + p == (x + p)[base..];
    assert (x + p)[|x + p| - k..] == (x + p)[base..][|x + p| - base - k..];
    assert forall n :: EndsBeginning(x + p, n, k) <==> EndsBeginning(x[base..] + p, n, k);
  }

  /** The hold of a longer stream is decided by the bytes held so far and the new ones. */
  lemma HoldIsLocal(x: Bytes, h: int, p: Bytes, needles: seq<Bytes>, g: int)
    requires IsHold(x, needles, h)
    requires IsHold(x[|x| - h..] + p, needles, g)
    ensures IsHold(x + p, needles, g)
  {
    PartialOfTail(x, |x| - h, p, needles, g);
    forall k | g < k
      ensures !Partial(x + p, needles, k)
    {
      if Partial(x + p, needles, k) {
        if k <= h + |p| {
          PartialOfTail(x, |x| - h, p, needles, k);
        } else {
          PartialOfWhole(x, p, needles, k);
        }
      }
    }
  }

  /** A match in `x + p` lies in `x`, or in the held tail of `x` followed by `p`. */
  lemma MatchIsLocal(x: Bytes, h: int, p: Bytes, needles: seq<Bytes>, n: Bytes, i: int)
    requires IsHold(x, needles, h)
    requires n in needles && n != [] && MatchAt(x + p, n, i)
    ensures MatchAt(x, n, i) || MatchAt(x[|x| - h..] + p, n, i - (|x| - h))
  {
    if i + |n| <= |x| {
      assert x[i..i + |n|] == (x + p)[i..i + |n|];
    } else {
      var k, base := if i < |x| then |x| - i else 0, |x| - h;
      assert n[..k] == (x + p)[i..i + |n|][..k] == x[|x| - k..];
      HoldIsLongest(x, needles, h, n, k);
      assert (x[base..] + p)[i - base..i - base + |n|] == (x + p)[i..i + |n|];
    }
  }

  lemma HoldIsLongest(x: Bytes, needles: seq<Bytes>, h: int, n: Bytes, k: int)
    requires IsHold(x, needles, h) && n in needles && EndsBeginning(x, n, k)
    ensures k <= h
  {
    assert Partial(x, needles, k);
  }

  lemma MatchInPrefix(x: Bytes, p: Bytes, n: Bytes, i: int)
    requires MatchAt(x, n, i)
    ensures MatchAt(x + p, n, i)
  {
    assert (x + p)[i..i + |n|] == x[i..i + |n|];
  }

  lemma MatchInTail(x: Bytes, base: int, p: Bytes, n: Bytes, i: int)
    requires 0 <= base <= |x| && MatchAt(x[base..] + p, n, i)
    ensures MatchAt(x + p, n, i + base)
  {
    assert x[base..] + p == (x + p)[base..];
    assert (x + p)[base..][i..i + |n|] == (x + p)[i + base..i + base + |n|];
  }

  /** Whether a byte is covered is settled by what was covered before and by the buffer. */
  lemma CoverageIsLocal(x: Bytes, h: int, p: Bytes, needles: seq<Bytes>, j: int)
    requires IsHold(x, needles, h)
    ensures Covered(x + p, needles, j) <==>
            Covered(x, needles, j) || Covered(x[|x| - h..] + p, needles, j - (|x| - h))
  {
    var base := |x| - h;
    var buf := x[base..] + p;
    if Covered(x + p, needles, j) {
      var n, i :| n in needles && n != [] && MatchAt(x + p, n, i) && i <= j < i + |n|;
      MatchIsLocal(x, h, p, needles, n, i);
      if !MatchAt(x, n, i) {
        assert MatchAt(buf, n, i - base);
      }
    }
    if Covered(x, needles, j) {
      var n, i :| n in needles && n != [] && MatchAt(x, n, i) && i <= j < i + |n|;
      MatchInPrefix(x, p, n, i);
    }
    if Covered(buf, needles, j - base) {
      var n, i :| n in needles && n != [] && MatchAt(buf, n, i) && i <= j - base < i + |n|;
      MatchInTail(x, base, p, n, i);
      assert i + base <= j < i + base + |n|;
    }
  }

  /** The flags of the longer stream: those before the held bytes are final, and the rest
      are the flags kept so far or what the buffer alone shows. */
  lemma FlagsAreLocal(x: Bytes, h: int, p: Bytes, needles: seq<Bytes>)
    requires IsHold(x, needles, h)
    ensures Flags(x + p, needles)[..|x| - h] == Flags(x, needles)[..|x| - h]
    ensures Flags(x + p, needles)[|x| - h..] ==
            Or(Flags(x, needles)[|x| - h..] + Unset(|p|), Flags(x[|x| - h..] + p, needles))
  {
    var base := |x| - h;
    forall j | 0 <= j < base
      ensures Flags(x + p, needles)[j] == Flags(x, needles)[j]
    {
      CoverageIsLocal(x, h, p, needles, j);
      assert !Covered(x[base..] + p, needles, j - base);
    }
    var whole, kept := Flags(x + p, needles)[base..], Flags(x, needles)[base..] + Unset(|p|);
    var both := Or(kept, Flags(x[base..] + p, needles));
    forall j | 0 <= j < h + |p|
      ensures whole[j] == both[j]
    {
      CoverageIsLocal(x, h, p, needles, base + j);
      assert whole[j] == Covered(x + p, needles, base + j);
      assert kept[j] == (j < h && Covered(x, needles, base + j));
      assert j >= h ==> !Covered(x, needles, base + j);
    }
    assert whole == both;
  }

  lemma BlendSlice(b: Bytes, flags: seq<bool>, mask: Byte, i: int, e: int)
    requires |b| == |flags| && 0 <= i <= e <= |b|
    ensures Blend(b, flags, mask)[i..e] == Blend(b[i..e], flags[i..e], mask)
  {
  }

  /** What one Write adds to the stream `x`, read off the buffer `x[|x| - h..] + p` alone:
      the new hold, the flags kept, and the masked bytes now ready to send. */
  lemma BufferStep(x: Bytes, h: int, p: Bytes, needles: seq<Bytes>, mask: Byte, g: int)
    requires IsHold(x, needles, h)
    requires IsHold(x[|x| - h..] + p, needles, g)
    ensures IsHold(x + p, needles, g) && g <= h + |p|
    ensures var all := x[|x| - h..] + p;
            var flags := Or(Flags(x, needles)[|x| - h..] + Unset(|p|), Flags(all, needles));
            && flags[|all| - g..] == Flags(x + p, needles)[|x + p| - g..]
            && Masked(x, needles, mask)[..|x| - h] + Blend(all[..|all| - g], flags[..|all| - g], mask)
               == Masked(x + p, needles, mask)[..|x + p| - g]
  {
    HoldIsLocal(x, h, p, needles, g);
    FlagsAreLocal(x, h, p, needles);
    hide Blend, Flags, IsHold, Or, Covered;
    var base, end, all := |x| - h, |x + p| - g, x[|x| - h..] + p;
    var marks := Flags(x + p, needles);
    assert all[..|all| - g] == (x + p)[base..end] && marks[base..][..|all| - g] == marks[base..end];
    BlendSlice(x + p, marks, mask, base, end);
    BlendSlice(x + p, marks, mask, 0, base);
    BlendSlice(x, Flags(x, needles), mask, 0, base);
    assert (x + p)[0..base] == x[0..base] && marks[0..base] == Flags(x, needles)[0..base];
    var whole := Masked(x + p, needles, mask);
    assert whole[..end] == whole[0..base] + whole[base..end];
  }

  /** n flags, none set. */
  function Unset(n: nat): (r: seq<bool>)
    ensures |r| == n && forall j :: 0 <= j < n ==> !r[j]
  {
    seq(n, _ => false)
  }

  /** What a Writer knows after the stream `x`: it has sent everything but the bytes held back,
      masked as the whole stream masks them, and holds the rest raw with their flags. */
  ghost predicate Streamed(x: Bytes, needles: seq<Bytes>, mask: Byte, sent: Bytes, held: Bytes, flags: seq<bool>) {
    && IsHold(x, needles, |held|)
    && sent == Masked(x, needles, mask)[..|x| - |held|]
    && held == x[|x| - |held|..]
    && flags == Flags(x, needles)[|x| - |held|..]
  }

  lemma StreamedLengths(x: Bytes, needles: seq<Bytes>, mask: Byte, sent: Bytes, held: Bytes, flags: seq<bool>)
    requires Streamed(x, needles, mask, sent, held, flags)
    ensures |flags| == |held| <= |x|
  {
  }

  lemma HoldIsShort(x: Bytes, needles: seq<Bytes>, mask: Byte, sent: Bytes, held: Bytes, flags: seq<bool>)
    requires Streamed(x, needles, mask, sent, held, flags)
    ensures |held| <= |x| && sent == Masked(x, needles, mask)[..|x| - |held|] && IsHold(x, needles, |held|)
    ensures held != [] ==> exists n :: n in needles && |held| < |n| && n[..|held|] == x[|x| - |held|..]
    ensures forall n, k :: n in needles && |held| < k < |n| && k <= |x| ==> n[..k] != x[|x| - k..]
  {
    if held != [] {
      var n :| n in needles && EndsBeginning(x, n, |held|);
    }
    forall n, k | n in needles && |held| < k < |n| && k <= |x|
      ensures n[..k] != x[|x| - k..]
    {
      assert !Partial(x, needles, k);
      assert !EndsBeginning(x, n, k);
    }
  }

  lemma StreamedOn(x: Bytes, needles: seq<Bytes>, mask: Byte, sent: Bytes, held: Bytes, flags: seq<bool>,
                   p: Bytes, all: Bytes, marks: seq<bool>, hold: nat)
    requires Streamed(x, needles, mask, sent, held, flags) && |flags| == |held|
    requires all == held + p && marks == Or(flags + Unset(|p|), Flags(all, needles)) && IsHold(all, needles, hold) && hold <= |all|
    ensures var send := |all| - hold;
            Streamed(x + p, needles, mask, sent + Blend(all[..send], marks[..send], mask), all[send..], marks[send..])
  {
    BufferStep(x, |held|, p, needles, mask, hold);
    assert (held + p)[|held + p| - hold..] == (x + p)[|x + p| - hold..];
  }

  /** The same when nothing is held and the new bytes hold no match. */
  lemma StreamedThrough(x: Bytes, needles: seq<Bytes>, mask: Byte, sent: Bytes, p: Bytes, hold: nat)
    requires Streamed(x, needles, mask, sent, [], []) && Clean(p, needles)
    requires IsHold(p, needles, hold)
    ensures Streamed(x + p, needles, mask, sent + p[..|p| - hold], p[|p| - hold..], Unset(hold))
  {
    HoldFits(p, needles, hold);
    NoFlags(p, needles);
    StreamedFresh(x, needles, mask, sent, p, hold);
    hide Streamed, Flags, IsHold, Clean, Blend, Unset;
    Unmarked(p, hold, mask);
  }

  /** When nothing is held, only the new bytes matter. */
  lemma StreamedFresh(x: Bytes, needles: seq<Bytes>, mask: Byte, sent: Bytes, p: Bytes, hold: nat)
    requires Streamed(x, needles, mask, sent, [], []) && IsHold(p, needles, hold) && hold <= |p|
    ensures var marks, send := Flags(p, needles), |p| - hold;
            Streamed(x + p, needles, mask, sent + Blend(p[..send], marks[..send], mask), p[send..], marks[send..])
  {
    var none: Bytes, unmarked: seq<bool> := [], [];
    assert none + p == p && unmarked + Unset(|p|) == Unset(|p|);
    OrUnset(Flags(p, needles));
    hide Streamed, Flags, IsHold, Or, Blend, Unset;
    StreamedOn(x, needles, mask, sent, none, unmarked, p, p, Flags(p, needles), hold);
  }

  lemma OrUnset(flags: seq<bool>)
    ensures Or(Unset(|flags|), flags) == flags
  {
  }

  lemma HoldFits(p: Bytes, needles: seq<Bytes>, hold: nat)
    requires IsHold(p, needles, hold)
    ensures hold <= |p|
  {
  }

  lemma Unmarked(p: Bytes, hold: nat, mask: Byte)
    requires hold <= |p|
    ensures var none := Unset(|p|);
            && Blend(p[..|p| - hold], none[..|p| - hold], mask) == p[..|p| - hold]
            && none[|p| - hold..] == Unset(hold)
  {
  }

  lemma NoFlags(p: Bytes, needles: seq<Bytes>)
    requires Clean(p, needles)
    ensures Flags(p, needles) == Unset(|p|)
  {
  }

  lemma StreamEnd(x: Bytes, needles: seq<Bytes>, mask: Byte, sent: Bytes, held: Bytes, flags: seq<bool>)
    requires Streamed(x, needles, mask, sent, held, flags)
    ensures |flags| == |held| && sent + Blend(held, flags, mask) == Masked(x, needles, mask)
  {
  }

  lemma StreamStart(needles: seq<Bytes>, mask: Byte)
    ensures Streamed([], needles, mask, [], [], [])
  {
  }

  /* ----- the mask byte ----- */

  const CANDIDATES := 67

  /** The k-th of `*x-_.~`, the digits, the capitals, and the small letters but `x`. */
  function Candidate(k: int): (c: Byte)
    requires 0 <= k < CANDIDATES
  {
    if k < 6 then [42, 120, 45, 95, 46, 126][k]
    else if k < 16 then 48 + (k - 6)
    else if k < 42 then 65 + (k - 16)
    else if k < 65 then 97 + (k - 42)
    else 121 + (k - 65)
  }

  predicate Occurs(c: Byte, needles: seq<Bytes>) {
    exists i :: 0 <= i < |needles| && c in needles[i]
  }

  predicate Used(k: int, needles: seq<Bytes>)
    requires 0 <= k < CANDIDATES
  {
    Occurs(Candidate(k), needles)
  }

  /** `m` is the first candidate that no needle contains, or `*` when each is in some needle. */
  ghost predicate IsMaskFor(needles: seq<Bytes>, m: Byte) {
    (exists k :: 0 <= k < CANDIDATES && IsFirstUnused(needles, k) && m == Candidate(k)) ||
    ((forall k :: 0 <= k < CANDIDATES ==> Used(k, needles)) && m == 42)
  }

  ghost predicate IsFirstUnused(needles: seq<Bytes>, k: int)
    requires 0 <= k < CANDIDATES
  {
    !Used(k, needles) && forall i :: 0 <= i < k ==> Used(i, needles)
  }

  method MaskFor(needles: seq<Bytes>) returns (m: Byte, ghost holders: seq<Bytes>)
    ensures m == MaskByte(needles)
    // The first candidate that no needle contains; each one before it is in the needle given for it.
    ensures |holders| <= CANDIDATES
    ensures forall i :: 0 <= i < |holders| ==> holders[i] in needles && Candidate(i) in holders[i]
    ensures if |holders| == CANDIDATES then m == 42
            else m == Candidate(|holders|) && forall n :: n in needles ==> m !in n
  {
    holders := [];
    for k := 0 to CANDIDATES
      invariant |holders| == k && forall i :: 0 <= i < k ==> Used(i, needles)
      invariant forall i :: 0 <= i < k ==> holders[i] in needles && Candidate(i) in holders[i]
    {
      if !Used(k, needles) {
        assert IsFirstUnused(needles, k);
        MaskIsUnique(needles, Candidate(k), MaskByte(needles));
        return Candidate(k), holders;
      }
      ghost var i :| 0 <= i < |needles| && Candidate(k) in needles[i];
      holders := holders + [needles[i]];
    }
    MaskIsUnique(needles, 42, MaskByte(needles));
    return 42, holders;
  }

  lemma MaskIsUnique(needles: seq<Bytes>, m: Byte, m': Byte)
    requires IsMaskFor(needles, m) && IsMaskFor(needles, m')
    ensures m == m'
  {
    if k, k' :| 0 <= k < CANDIDATES && 0 <= k' < CANDIDATES && IsFirstUnused(needles, k) && IsFirstUnused(needles, k')
                && m == Candidate(k) && m' == Candidate(k') {
      assert !(k < k') && !(k' < k);
    }
  }

  lemma MaskExists(needles: seq<Bytes>, k: nat) returns (m: Byte)
    requires k <= CANDIDATES && forall i :: 0 <= i < k ==> Used(i, needles)
    ensures IsMaskFor(needles, m)
    decreases CANDIDATES - k
  {
    if k == CANDIDATES {
      m := 42;
    } else if Used(k, needles) {
      m := MaskExists(needles, k + 1);
    } else {
      m := Candidate(k);
      assert IsFirstUnused(needles, k);
    }
  }

  ghost function MaskByte(needles: seq<Bytes>): (m: Byte)
    ensures IsMaskFor(needles, m)
  {
    assert exists m :: IsMaskFor(needles, m) by { var m := MaskExists(needles, 0); }
    var m :| IsMaskFor(needles, m);
    m
  }

  /** The mask byte is in no needle whenever some candidate is in none. */
  lemma MaskAvoidsNeedles(needles: seq<Bytes>, k: int)
    requires 0 <= k < CANDIDATES && !Used(k, needles)
    ensures !Occurs(MaskByte(needles), needles)
  {
    var m := MaskByte(needles);
    assert IsMaskFor(needles, m);
  }

  /* ----- what masking guarantees ----- */

  /** With a mask byte outside every needle, no needle survives anywhere in the output,
      not even one made of masked and unmasked bytes together. */
  lemma MaskedIsClean(b: Bytes, needles: seq<Bytes>, mask: Byte)
    requires !Occurs(mask, needles)
    ensures Clean(Masked(b, needles, mask), needles)
  {
    var r := Masked(b, needles, mask);
    forall n, i | n in needles && n != []
      ensures !MatchAt(r, n, i)
    {
      if MatchAt(r, n, i) {
        forall j | i <= j < i + |n|
          ensures !Covered(b, needles, j) && r[j] == b[j]
        {
          assert n[j - i] == r[i..i + |n|][j - i] == r[j];
          assert n[j - i] != mask by {
            var q :| 0 <= q < |needles| && needles[q] == n;
          }
        }
        assert b[i..i + |n|] == r[i..i + |n|];
        assert MatchAt(b, n, i);
        assert Covered(b, needles, i);
        assert false;
      }
    }
  }

  lemma CleanIsUnchanged(b: Bytes, needles: seq<Bytes>, mask: Byte)
    requires Clean(b, needles)
    ensures Masked(b, needles, mask) == b
  {
    assert forall j :: !Covered(b, needles, j);
  }

  lemma MaskingIsIdempotent(b: Bytes, needles: seq<Bytes>, mask: Byte)
    requires !Occurs(mask, needles)
    ensures var r := Masked(b, needles, mask); Masked(r, needles, mask) == r
  {
    MaskedIsClean(b, needles, mask);
    CleanIsUnchanged(Masked(b, needles, mask), needles, mask);
  }

  /** With needles holding every candidate between them the mask is `*`, and it can
      complete a match: masking `*` leaves the needle `*` standing. */
  lemma FallbackMaskCanMatch(all: Bytes)
    requires forall k :: 0 <= k < CANDIDATES ==> Candidate(k) in all
    ensures var needles := [all, [42]];
            !Clean(Masked([42], needles, MaskByte(needles)), needles)
  {
    var needles: seq<Bytes> := [all, [42]];
    assert needles[0] == all;
    forall k | 0 <= k < CANDIDATES
      ensures Used(k, needles)
    {
    }
    MaskIsUnique(needles, 42, MaskByte(needles));
    assert needles[1] == [42];
    assert MatchAt([42], [42], 0);
    assert Masked([42], needles, 42) == [42];
  }

  /* ----- the whole-string form ----- */

  function Views(needles: seq<Bytes>): (r: seq<Bytes>)
    ensures forall n :: n in r <==> n in needles && n != []
  {
    if needles == [] then []
    else (if needles[0] != [] then [needles[0]] else []) + Views(needles[1..])
  }

  lemma ViewsCoverTheSame(b: Bytes, needles: seq<Bytes>, mask: Byte)
    ensures Masked(b, Views(needles), mask) == Masked(b, needles, mask)
  {
    forall j
      ensures Covered(b, Views(needles), j) <==> Covered(b, needles, j)
    {
      if Covered(b, needles, j) {
        var n, i :| n in needles && n != [] && MatchAt(b, n, i) && i <= j < i + |n|;
        assert n in Views(needles);
      }
      if Covered(b, Views(needles), j) {
        var n, i :| n in Views(needles) && n != [] && MatchAt(b, n, i) && i <= j < i + |n|;
        assert n in needles;
      }
    }
  }

  /** bytes.Index on `b[from:]`: the first match at or after `from`, or -1. */
  method Index(b: Bytes, n: Bytes, from: nat) returns (i: int)
    requires from <= |b|
    ensures i == -1 || (from <= i && MatchAt(b, n, i))
    ensures forall k :: from <= k && (i == -1 || k < i) ==> !MatchAt(b, n, k)
  {
    i := from;
    while i + |n| <= |b|
      invariant from <= i
      invariant forall k :: from <= k < i ==> !MatchAt(b, n, k)
    {
      if b[i..i + |n|] == n {
        return;
      }
      i := i + 1;
    }
    i := -1;
  }

  method ContainsAny(b: Bytes, needles: seq<Bytes>) returns (found: bool)
    requires forall n :: n in needles ==> n != []
    ensures !found <==> Clean(b, needles)
  {
    for k := 0 to |needles|
      invariant Clean(b, needles[..k])
    {
      assert needles[k] in needles;
      var i := Index(b, needles[k], 0);
      if i >= 0 {
        assert MatchAt(b, needles[k], i);
        return true;
      }
      assert forall a :: !MatchAt(b, needles[k], a);
      forall n, i | n in needles[..k + 1] && n != []
        ensures !MatchAt(b, n, i)
      {
        if n !in needles[..k] {
          assert n == needles[k];
        }
      }
    }
    assert needles[..|needles|] == needles;
    return false;
  }

  /** A match of `n` starting before `start` covers byte `j`. */
  ghost predicate CoveredBefore(b: Bytes, n: Bytes, start: int, j: int) {
    exists i :: i < start && MatchAt(b, n, i) && i <= j < i + |n|
  }

  lemma CoveredOneMore(b: Bytes, needles: seq<Bytes>, k: int, j: int)
    requires 0 <= k < |needles| && needles[k] != []
    ensures Covered(b, needles[..k + 1], j) <==>
            Covered(b, needles[..k], j) || CoveredBefore(b, needles[k], |b|, j)
  {
    if Covered(b, needles[..k + 1], j) {
      var n, i :| n in needles[..k + 1] && n != [] && MatchAt(b, n, i) && i <= j < i + |n|;
      if n !in needles[..k] {
        assert n == needles[k];
      }
    }
    if CoveredBefore(b, needles[k], |b|, j) {
      assert needles[k] == needles[..k + 1][k];
    }
    if Covered(b, needles[..k], j) {
      var n, i :| n in needles[..k] && n != [] && MatchAt(b, n, i) && i <= j < i + |n|;
      assert n in needles[..k + 1];
    }
  }

  /** Marks every match of one needle, overlapping ones included. */
  method MarkNeedle(b: Bytes, needle: Bytes, masked: array<bool>)
    requires |b| <= masked.Length && needle != []
    modifies masked
    ensures forall j :: 0 <= j < |b| ==> masked[j] == (old(masked[j]) || CoveredBefore(b, needle, |b|, j))
  {
    var start := 0;
    while true
      invariant 0 <= start <= |b|
      invariant forall j :: 0 <= j < |b| ==> masked[j] == (old(masked[j]) || CoveredBefore(b, needle, start, j))
      decreases |b| - start
    {
      var i := Index(b, needle, start);
      if i < 0 {
        return;
      }
      ghost var before := masked[..];
      for k := 0 to |needle|
        invariant forall j :: 0 <= j < |b| ==> masked[j] == (before[j] || i <= j < i + k)
      {
        masked[i + k] := true;
      }
      forall j | 0 <= j < |b|
        ensures CoveredBefore(b, needle, i + 1, j) <==> CoveredBefore(b, needle, start, j) || i <= j < i + |needle|
      {
        if CoveredBefore(b, needle, i + 1, j) {
          var a :| a < i + 1 && MatchAt(b, needle, a) && a <= j < a + |needle|;
          assert a < start || a == i;
        }
      }
      start := i + 1;
    }
  }

  method MarkMatches(b: Bytes, needles: seq<Bytes>, masked: array<bool>)
    requires |b| <= masked.Length
    requires forall n :: n in needles ==> n != []
    modifies masked
    ensures masked[..|b|] == Or(old(masked[..|b|]), Flags(b, needles))
  {
    for k := 0 to |needles|
      invariant forall j :: 0 <= j < |b| ==> masked[j] == (old(masked[j]) || Covered(b, needles[..k], j))
    {
      assert needles[k] in needles;
      MarkNeedle(b, needles[k], masked);
      forall j {
        CoveredOneMore(b, needles, k, j);
      }
    }
    assert needles[..|needles|] == needles;
  }

  method ApplyMask(b: array<Byte>, upto: nat, masked: array<bool>, mask: Byte)
    requires upto <= b.Length && upto <= masked.Length
    modifies b
    ensures b[..] == Blend(old(b[..upto]), masked[..upto], mask) + old(b[upto..])
  {
    for i := 0 to upto
      invariant forall j :: 0 <= j < i ==> b[j] == if masked[j] then mask else old(b[j])
      invariant forall j :: i <= j < b.Length ==> b[j] == old(b[j])
    {
      if masked[i] {
        b[i] := mask;
      }
    }
  }

  /** redact.String. */
  method Mask(s: Bytes, needles: seq<Bytes>) returns (r: Bytes)
    ensures r == Masked(s, needles, MaskByte(needles))
    // A slice that is a needle becomes as many mask bytes; a byte in no such slice stays.
    ensures |r| == |s|
    ensures forall i, e :: 0 <= i < e <= |s| && s[i..e] in needles ==> forall k :: i <= k < e ==> r[k] == MaskByte(needles)
    ensures forall k :: 0 <= k < |s| && (forall i, e :: 0 <= i <= k < e <= |s| ==> s[i..e] !in needles) ==> r[k] == s[k]
  {
    MaskedMeans(s, needles, MaskByte(needles));
    ViewsCoverTheSame(s, needles, MaskByte(needles));
    var found := ContainsAny(s, Views(needles));
    if !found {
      CleanIsUnchanged(s, Views(needles), MaskByte(needles));
      return s;
    }
    var b := new Byte[|s|](i requires 0 <= i < |s| => s[i]);
    var masked := new bool[|s|](_ => false);
    MarkMatches(s, Views(needles), masked);
    var m, _ := MaskFor(needles);
    ApplyMask(b, |s|, masked, m);
    return b[..];
  }

  /* ----- the streaming form ----- */

  /** One needle's turn in the search: any longer partial match of it, or `longest`. */
  method LongestWith(b: Bytes, needle: Bytes, longest: nat) returns (r: nat)
    requires needle != []
    ensures longest <= r && (r == longest || EndsBeginning(b, needle, r))
    ensures forall h :: r < h ==> !EndsBeginning(b, needle, h)
  {
    var i := if |b| - |needle| + 1 < 0 then 0 else |b| - |needle| + 1;
    while i < |b| - longest
      invariant |b| - |needle| < i
      invariant forall h :: |b| - i < h ==> !EndsBeginning(b, needle, h)
    {
      if needle[..|b| - i] == b[i..] {
        return |b| - i;
      }
      i := i + 1;
    }
    return longest;
  }

  method PartialMatch(b: Bytes, needles: seq<Bytes>) returns (longest: nat)
    requires forall n :: n in needles ==> n != []
    ensures IsHold(b, needles, longest) && longest <= |b|
  {
    longest := 0;
    for k := 0 to |needles|
      invariant longest == 0 || exists n :: n in needles && EndsBeginning(b, n, longest)
      invariant forall n, h :: n in needles[..k] && longest < h ==> !EndsBeginning(b, n, h)
    {
      assert needles[k] in needles;
      longest := LongestWith(b, needles[k], longest);
    }
    assert needles[..|needles|] == needles;
  }

  /** What an outgrown buffer leaves in memory: a proper beginning of a needle, or nothing. */
  ghost predicate Leftover(b: Bytes, needles: seq<Bytes>) {
    exists h :: 0 <= h <= |b| && (h == 0 || exists n :: n in needles && h < |n| && b[..h] == n[..h]) &&
                forall j :: h <= j < |b| ==> b[j] == 0
  }

  lemma HeldIsLeftover(x: Bytes, needles: seq<Bytes>, mask: Byte, sent: Bytes, b: Bytes, h: nat, flags: seq<bool>)
    requires h <= |b| && Streamed(x, needles, mask, sent, b[..h], flags) && forall j :: h <= j < |b| ==> b[j] == 0
    ensures Leftover(b, needles)
  {
    if h > 0 {
      var n :| n in needles && EndsBeginning(x, n, h);
      assert b[..h] == x[|x| - h..] == n[..h];
    }
  }

  /** copy(a, a[from..end]). */
  method MoveHeld<T>(a: array<T>, from: nat, end: nat)
    requires from <= end <= a.Length
    modifies a
    ensures a[..end - from] == old(a[from..end])
    ensures forall j :: end <= j < a.Length ==> a[j] == old(a[j])
  {
    forall j | 0 <= j < end - from {
      a[j] := a[from + j];
    }
  }

  class Writer {
    const needles: seq<Bytes>
    const mask: Byte
    /** Everything written to the underlying writer. */
    var out: Bytes
    /** The backing arrays of the buffer and of its flags, with all their capacity. */
    var buf: array<Byte>
    var masked: array<bool>
    var pending: nat

    /** Ghost history: what was out at the last Close, what was written to this since, and what the
        backing arrays held that were left for larger ones. */
    ghost var closed: Bytes
    ghost var input: Bytes
    ghost var outgrown: seq<Bytes>

    ghost predicate Valid()
      reads this, buf, masked
    {
      && (forall n :: n in needles ==> n != [])
      && pending <= buf.Length && pending <= masked.Length
      && closed <= out
      && Streamed(input, needles, mask, out[|closed|..], buf[..pending], masked[..pending])
      // No byte of the stream is left behind in the buffer, up to its whole capacity.
      && (forall j :: pending <= j < buf.Length ==> buf[j] == 0)
      && (forall b :: b in outgrown ==> Leftover(b, needles))
    }

    /** NewWriter; `m` is what MaskFor returns for `ns`. */
    constructor (ns: seq<Bytes>, m: Byte)
      ensures Valid() && fresh(buf) && fresh(masked)
      ensures needles == Views(ns) && mask == m
      ensures out == closed == input == [] && outgrown == []
    {
      needles := Views(ns);
      mask := m;
      out, closed, input, pending, outgrown := [], [], [], 0, [];
      buf := new Byte[0];
      masked := new bool[0];
      new;
      Starts();
    }

    /** Nothing written, nothing held, nothing sent since. */
    lemma Starts()
      requires (forall n :: n in needles ==> n != []) && pending == 0 && out == closed && input == [] && outgrown == []
      requires forall j :: 0 <= j < buf.Length ==> buf[j] == 0
      ensures Valid()
    {
      StreamStart(needles, mask);
      hide Streamed, Leftover;
      assert buf[..0] == [] && masked[..0] == [] && out[|closed|..] == [];
    }

    method Write(p: Bytes)
      requires Valid()
      modifies this, buf, masked
      ensures Valid() && (buf == old(buf) || fresh(buf)) && (masked == old(masked) || fresh(masked))
      ensures input == old(input) + p && closed == old(closed)
      // All but what is held is sent, masked as the whole input is.
      ensures pending <= |input| && out == closed + Masked(input, needles, mask)[..|input| - pending]
      // What is held is the longest end of the input that begins a needle, and not a whole one.
      ensures pending > 0 ==> exists n :: n in needles && pending < |n| && n[..pending] == input[|input| - pending..]
      ensures forall n, k :: n in needles && pending < k < |n| && k <= |input| ==> n[..k] != input[|input| - k..]
    {
      hide Streamed, IsHold, Masked, Clean, Leftover;
      if |needles| == 0 {
        WriteRaw(p);
      } else {
        var found := true;
        if pending == 0 {
          found := ContainsAny(p, needles);
        }
        if found {
          WriteBuffered(p);
        } else {
          WriteThrough(p);
        }
      }
      HoldIsShort(input, needles, mask, out[|closed|..], buf[..pending], masked[..pending]);
    }

    method WriteRaw(p: Bytes)
      requires Valid() && needles == []
      modifies `out, `input
      ensures Valid() && input == old(input) + p && closed == old(closed)
    {
      assert Clean(p, needles) && pending == 0;
      assert IsHold(p, needles, 0);
      assert buf[..pending] == [] && masked[..pending] == [];
      StreamedThrough(input, needles, mask, out[|closed|..], p, 0);
      hide Streamed, Leftover;
      assert p[|p|..] == [] && Unset(0) == [] && p[..|p|] == p;
      assert (out + p)[|closed|..] == out[|closed|..] + p;
      out := out + p;
      input := input + p;
    }

    /** The way without a copy: with the buffer empty and p clean, p goes out but for its own hold. */
    method WriteThrough(p: Bytes)
      requires Valid() && pending == 0 && Clean(p, needles)
      modifies this, buf, masked
      ensures Valid() && (buf == old(buf) || fresh(buf)) && (masked == old(masked) || fresh(masked))
      ensures input == old(input) + p && closed == old(closed)
    {
      hide Streamed, IsHold, Flags, Masked, Covered, Clean, Leftover;
      var hold := PartialMatch(p, needles);
      assert buf[..pending] == [] && masked[..pending] == [];
      StreamedThrough(input, needles, mask, out[|closed|..], p, hold);
      var ready, tail := p[..|p| - hold], p[|p| - hold..];
      Extend(tail);
      assert (out + ready)[|closed|..] == out[|closed|..] + ready;
      out := out + ready;
      assert buf[..hold] == tail && masked[..hold] == Unset(hold);
      pending := hold;
      input := input + p;
    }

    method WriteBuffered(p: Bytes)
      requires Valid()
      modifies this, buf, masked
      ensures Valid() && (buf == old(buf) || fresh(buf)) && (masked == old(masked) || fresh(masked))
      ensures input == old(input) + p && closed == old(closed)
    {
      hide Streamed, Blend, Leftover;
      var hold := Mark(p);
      var size := pending + |p|;
      ghost var all, marks, send := buf[..size], masked[..size], size - hold;
      input := input + p;
      Send(size, hold);
      assert buf[..pending] == all[send..] && masked[..pending] == marks[send..];
    }

    /** Appends `p` to the buffer, marks its matches, and finds how much of it to hold back. */
    method Mark(p: Bytes) returns (hold: nat)
      requires Valid()
      modifies `buf, `masked, `outgrown, buf, masked
      ensures (buf == old(buf) || fresh(buf)) && (masked == old(masked) || fresh(masked))
      ensures hold <= pending + |p| <= buf.Length && pending + |p| <= masked.Length
      ensures var all, marks, send := buf[..pending + |p|], masked[..pending + |p|], pending + |p| - hold;
              Streamed(input + p, needles, mask, out[|closed|..] + Blend(all[..send], marks[..send], mask), all[send..], marks[send..])
      ensures forall j :: pending + |p| <= j < buf.Length ==> buf[j] == 0
      ensures forall b :: b in outgrown ==> Leftover(b, needles)
    {
      hide Streamed, IsHold, Flags, Masked, Covered, Blend, Or, Leftover;
      ghost var held, flags := buf[..pending], masked[..pending];
      StreamedLengths(input, needles, mask, out[|closed|..], held, flags);
      Extend(p);
      var size := pending + |p|;
      MarkMatches(buf[..size], needles, masked);
      hold := PartialMatch(buf[..size], needles);
      StreamedOn(input, needles, mask, out[|closed|..], held, flags, p, buf[..size], masked[..size], hold);
    }

    /** Appends `p`, unmarked, to the held bytes and their flags: in place where there is room, and
        otherwise in a larger array, which leaves the old one as it is. */
    method Extend(p: Bytes)
      requires Valid()
      modifies `buf, `masked, `outgrown, buf, masked
      ensures (buf == old(buf) || fresh(buf)) && (masked == old(masked) || fresh(masked))
      ensures pending + |p| <= buf.Length && pending + |p| <= masked.Length
      ensures buf[..pending + |p|] == old(buf[..pending]) + p
      ensures masked[..pending + |p|] == old(masked[..pending]) + Unset(|p|)
      ensures forall j :: pending + |p| <= j < buf.Length ==> buf[j] == 0
      ensures forall b :: b in outgrown ==> Leftover(b, needles)
    {
      HeldIsLeftover(input, needles, mask, out[|closed|..], buf[..], pending, masked[..pending]) by {
        assert buf[..][..pending] == buf[..pending];
      }
      hide Streamed, Leftover;
      ExtendBuf(p);
      ExtendMasked(|p|);
    }

    method ExtendBuf(p: Bytes)
      requires pending <= buf.Length && (forall j :: pending <= j < buf.Length ==> buf[j] == 0)
      modifies `buf, `outgrown, buf
      ensures buf == old(buf) || fresh(buf)
      ensures outgrown == if buf == old(buf) then old(outgrown) else old(outgrown) + [old(buf[..])]
      ensures pending + |p| <= buf.Length && buf[..pending + |p|] == old(buf[..pending]) + p
      ensures forall j :: pending + |p| <= j < buf.Length ==> buf[j] == 0
    {
      var size := pending + |p|;
      if size <= buf.Length {
        forall j | 0 <= j < |p| {
          buf[pending + j] := p[j];
        }
      } else {
        // How much larger is up to append.
        var spare: int := *;
        var all := buf[..pending] + p;
        outgrown := outgrown + [buf[..]];
        buf := new Byte[size + Max(spare, 0)](i requires 0 <= i => if i < size then all[i] else 0);
      }
    }

    method ExtendMasked(n: nat)
      requires pending <= masked.Length
      modifies `masked, masked
      ensures masked == old(masked) || fresh(masked)
      ensures pending + n <= masked.Length && masked[..pending + n] == old(masked[..pending]) + Unset(n)
    {
      var size := pending + n;
      if size <= masked.Length {
        forall j | pending <= j < size {
          masked[j] := false;
        }
      } else {
        var spare: int := *;
        var all := masked[..pending] + Unset(n);
        masked := new bool[size + Max(spare, 0)](i requires 0 <= i => i < size && all[i]);
      }
    }

    /** Writes all of the first `size` bytes but the last `hold`, masked, and keeps the rest raw. */
    method Send(size: nat, hold: nat)
      requires hold <= size <= buf.Length && size <= masked.Length && closed <= out
      requires forall j :: size <= j < buf.Length ==> buf[j] == 0
      modifies buf, masked, `pending, `out
      ensures var send := size - hold;
              && closed <= out
              && out[|closed|..] == old(out[|closed|..]) + Blend(old(buf[..size][..send]), old(masked[..size][..send]), mask)
              && pending == hold
              && buf[..hold] == old(buf[..size][send..])
              && masked[..hold] == old(masked[..size][send..])
      ensures forall j :: hold <= j < buf.Length ==> buf[j] == 0
    {
      hide Blend;
      var send := size - hold;
      ApplyMask(buf, send, masked, mask);
      assert buf[..send] == Blend(old(buf[..size][..send]), old(masked[..size][..send]), mask) by {
        assert old(buf[..size][..send]) == old(buf[..send]) && old(masked[..size][..send]) == masked[..send];
      }
      assert buf[send..size] == old(buf[..size][send..]);
      assert (out + buf[..send])[|closed|..] == out[|closed|..] + buf[..send];
      out := out + buf[..send];
      KeepHeld(size, hold);
    }

    /** Moves the last `hold` of the first `size` bytes and flags to the front and wipes their old place. */
    method KeepHeld(size: nat, hold: nat)
      requires hold <= size <= buf.Length && size <= masked.Length
      requires forall j :: size <= j < buf.Length ==> buf[j] == 0
      modifies buf, masked, `pending
      ensures pending == hold
      ensures buf[..hold] == old(buf[size - hold..size])
      ensures masked[..hold] == old(masked[size - hold..size])
      ensures forall j :: hold <= j < buf.Length ==> buf[j] == 0
    {
      MoveHeld(buf, size - hold, size);
      MoveHeld(masked, size - hold, size);
      ghost var held := buf[..hold];
      forall j | hold <= j < size {
        buf[j] := 0;
      }
      assert buf[..hold] == held;
      pending := hold;
    }

    method Close()
      requires Valid()
      modifies this, buf
      ensures Valid() && buf == old(buf) && masked == old(masked)
      ensures out == old(closed) + Masked(old(input), needles, mask)
      ensures pending == 0 && closed == out && input == []
    {
      hide Leftover;
      StreamEnd(input, needles, mask, out[|closed|..], buf[..pending], masked[..pending]);
      if pending != 0 {
        ApplyMask(buf, pending, masked, mask);
        assert out + buf[..pending] == closed + (out[|closed|..] + buf[..pending]);
        out := out + buf[..pending];
        forall j | 0 <= j < pending {
          buf[j] := 0;
        }
      }
      pending := 0;
      closed, input := out, [];
      StreamStart(needles, mask);
      assert buf[..0] == [] && masked[..0] == [] && out[|closed|..] == [];
    }
  }

  /* ----- streaming refines the whole-string form ----- */

  function Concat(chunks: seq<Bytes>): Bytes {
    if chunks == [] then [] else Concat(chunks[..|chunks| - 1]) + chunks[|chunks| - 1]
  }

  /** Every split of the input into writes sends exactly the whole input masked. */
  method Stream(chunks: seq<Bytes>, needles: seq<Bytes>) returns (r: Bytes)
    ensures r == Masked(Concat(chunks), needles, MaskByte(needles))
    // However the writes split it, a slice that is a needle becomes as many mask bytes; a byte in no such slice stays.
    ensures |r| == |Concat(chunks)|
    ensures var s := Concat(chunks);
            && (forall i, e :: 0 <= i < e <= |s| && s[i..e] in needles ==> forall k :: i <= k < e ==> r[k] == MaskByte(needles))
            && (forall k :: 0 <= k < |s| && (forall i, e :: 0 <= i <= k < e <= |s| ==> s[i..e] !in needles) ==> r[k] == s[k])
  {
    MaskedMeans(Concat(chunks), needles, MaskByte(needles));
    hide Streamed, Leftover, IsHold, Masked, Views, MaskByte;
    var m, _ := MaskFor(needles);
    var w := new Writer(needles, m);
    for k := 0 to |chunks|
      invariant w.Valid() && fresh(w) && fresh(w.buf) && fresh(w.masked)
      invariant w.input == Concat(chunks[..k]) && w.closed == []
    {
      w.Write(chunks[k]);
      assert chunks[..k + 1][..k] == chunks[..k];
    }
    assert chunks[..|chunks|] == chunks;
    w.Close();
    ViewsCoverTheSame(Concat(chunks), needles, m);
    return w.out;
  }
}
