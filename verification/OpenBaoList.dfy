/** List in the OpenBao plugin (plugins/openbao/internal/openbao/openbao.go): a walk of the key
    tree that prunes folders, against the flat filter it must equal.

    A mount's records are a flat map from path to field names, and the folders the walk descends
    are what listing that map shows. */
module OpenBaoList {
  import opened Basics
  import opened Ordering

  /* ----- strings ----- */

  predicate HasPrefix(s: string, p: string) { p <= s }

  /** The position of the first c in s, or |s|. */
  function IndexOf(s: string, c: char): (i: nat)
    ensures i <= |s| && (i < |s| ==> s[i] == c) && c !in s[..i]
  {
    if s == "" || s[0] == c then 0 else
      var i := 1 + IndexOf(s[1..], c);
      assert s[..i] == [s[0]] + s[1..][..i - 1];
      i
  }

  lemma {:induction false} IndexIs(s: string, c: char, n: nat)
    requires n <= |s| && (n < |s| ==> s[n] == c) && forall j :: 0 <= j < n ==> s[j] != c
    ensures IndexOf(s, c) == n
  {
    if 0 < n {
      IndexIs(s[1..], c, n - 1);
    }
  }

  /** Two prefixes of one string are comparable. */
  lemma PrefixesCompare(s: string, a: string, b: string)
    requires HasPrefix(s, a) && HasPrefix(s, b)
    ensures HasPrefix(a, b) || HasPrefix(b, a)
  {
    assert |a| <= |b| ==> b[..|a|] == s[..|a|];
    assert |b| <= |a| ==> a[..|b|] == s[..|b|];
  }

  /** unicode.IsControl, which goes beyond ASCII. */
  predicate IsControlRune(c: char) { IsControl(c) || 0x80 <= c as int <= 0x9f }

  /** unicode.IsSpace. */
  predicate IsSpace(c: char) {
    var n := c as int;
    9 <= n <= 13 || n in {0x20, 0x85, 0xa0, 0x1680, 0x2028, 0x2029, 0x202f, 0x205f, 0x3000} || 0x2000 <= n <= 0x200a
  }

  predicate Refused(c: char) { c == '#' || c == '?' || c == '%' || IsControlRune(c) || IsSpace(c) }

  /** checkPath. */
  predicate PathOk(path: string, prefix: bool) {
    (path == "" && prefix) ||
    (&& !HasPrefix(path, "/") && !(exists i :: 0 <= i < |path| - 1 && path[i] == '/' && path[i + 1] == '/')
     && (prefix || path == "" || path[|path| - 1] != '/')
     && (forall i :: 0 <= i < |path| ==> !Refused(path[i])))
  }

  /** Which paths are refused, by the code points in them. */
  lemma PathOkMeans(path: string, prefix: bool)
    ensures PathOk(path, prefix) <==>
              || (path == "" && prefix)
              || (&& (path == "" || path[0] != '/') && (path == "" || prefix || path[|path| - 1] != '/')
                  && (forall i, j :: 0 <= i < j < |path| && j == i + 1 ==> !(path[i] == '/' && path[j] == '/'))
                  && forall i :: 0 <= i < |path| ==>
                       var c := path[i] as int;
                       && c !in {0x23, 0x25, 0x3f} && 0x20 < c && !(0x7f <= c <= 0xa0) && c != 0x1680
                       && !(0x2000 <= c <= 0x200a) && c !in {0x2028, 0x2029, 0x202f, 0x205f, 0x3000})
  {
    assert forall c :: Refused(c) <==>
             var n := c as int;
             || n in {0x23, 0x25, 0x3f} || n <= 0x20 || 0x7f <= n <= 0xa0 || n == 0x1680
             || 0x2000 <= n <= 0x200a || n in {0x2028, 0x2029, 0x202f, 0x205f, 0x3000};
    hide Refused;
    assert HasPrefix(path, "/") <==> path != "" && path[0] == '/';
  }

  predicate Overlaps(folder: string, prefix: string) { HasPrefix(folder, prefix) || HasPrefix(prefix, folder) }

  /* ----- a mount and what listing it shows ----- */

  /** Field names by record path, below the mount's data root. */
  type Store = map<string, set<string>>

  /** OpenBao holds no record with an empty path or one ending in a slash. */
  ghost predicate StoreOk(store: Store) { forall p :: p in store ==> p != "" && p[|p| - 1] != '/' }

  /** The first segment of a path, with its slash if more follows. */
  function FirstKey(rest: string): (k: string)
    ensures k <= rest && (rest != "" ==> k != "")
  {
    var i := IndexOf(rest, '/');
    if i < |rest| then rest[..i + 1] else rest
  }

  function Keys(store: Store, dir: string): set<string> {
    set p | p in store && HasPrefix(p, dir) :: FirstKey(p[|dir|..])
  }

  predicate IsFolder(key: string) { key != "" && key[|key| - 1] == '/' }

  lemma FirstKeyShape(rest: string)
    requires rest != "" && rest[|rest| - 1] != '/'
    ensures IsFolder(FirstKey(rest)) ==> |FirstKey(rest)| < |rest|
    ensures !IsFolder(FirstKey(rest)) ==> FirstKey(rest) == rest
    ensures '/' !in FirstKey(rest)[..|FirstKey(rest)| - 1]
  {
    var i := IndexOf(rest, '/');
    if i < |rest| {
      assert rest[..i + 1][..i] == rest[..i];
    } else {
      assert forall j :: 0 <= j < |rest| - 1 ==> rest[j] == rest[..i][j];
      assert rest[|rest| - 1] == rest[..i][|rest| - 1];
    }
  }

  /** A path under dir has first key k exactly when it continues dir + k: below the folder k, or
      as the record k itself. */
  lemma FirstKeyIs(rest: string, k: string)
    requires rest != "" && rest[|rest| - 1] != '/'
    requires k != "" && '/' !in k[..|k| - 1]
    ensures FirstKey(rest) == k <==> (if IsFolder(k) then HasPrefix(rest, k) else rest == k)
  {
    FirstKeyShape(rest);
    if IsFolder(k) && HasPrefix(rest, k) {
      var n := |k| - 1;
      assert forall j :: 0 <= j < n ==> rest[j] == k[..n][j];
      IndexIs(rest, '/', n);
      assert rest[..n + 1] == k;
    }
    if !IsFolder(k) && rest == k {
      assert forall j :: 0 <= j < |k| - 1 ==> rest[j] == k[..|k| - 1][j];
      IndexIs(rest, '/', |rest|);
    }
  }

  /* ----- the flat filter ----- */

  /** The records under dir that a List with that path prefix returns. */
  ghost function Wanted(store: Store, root: string, prefix: string, dir: string): set<string> {
    set p | p in store && HasPrefix(p, dir) && HasPrefix(root + p, prefix) && PathOk(root + p, false)
  }

  /** Of those, the ones whose first key below dir is k. */
  ghost function WantedAt(store: Store, root: string, prefix: string, dir: string, k: string): set<string> {
    set p | p in Wanted(store, root, prefix, dir) && FirstKey(p[|dir|..]) == k
  }

  function Location(path: string, field: string): string { path + "#" + field }

  /** The locations of a set of records. */
  ghost function Locations(store: Store, root: string, fieldPrefix: string, ps: set<string>): set<string> {
    set p, f | p in ps && p in store && f in store[p] && HasPrefix(f, fieldPrefix) :: Location(root + p, f)
  }

  /** Every location on the mount that starts with the prefix. */
  ghost function Matching(store: Store, root: string, prefix: string): set<string> {
    set p, f | p in store && f in store[p] && PathOk(root + p, false) && HasPrefix(Location(root + p, f), prefix)
             :: Location(root + p, f)
  }

  /** One location names one record and one field. */
  lemma LocationInjective(p: string, f: string, p': string, f': string)
    requires '#' !in p && '#' !in p' && Location(p, f) == Location(p', f')
    ensures p == p' && f == f'
  {
    var s := Location(p, f);
    assert forall j :: 0 <= j < |p| ==> s[j] == p[j];
    assert forall j :: 0 <= j < |p'| ==> s[j] == p'[j];
    IndexIs(s, '#', |p|);
    IndexIs(s, '#', |p'|);
    assert s[..|p|] == p && s[..|p'|] == p';
    assert s[|p| + 1..] == f && s[|p'| + 1..] == f';
  }

  /* ----- what pruning may skip ----- */

  /** A folder on the way to a wanted record overlaps the prefix. */
  lemma WayOverlaps(root: string, prefix: string, dir: string, k: string, p: string)
    requires HasPrefix(p, dir) && HasPrefix(p[|dir|..], k) && HasPrefix(root + p, prefix)
    ensures Overlaps(root + dir + k, prefix)
  {
    assert root + p == root + dir + p[|dir|..];
    PrefixesCompare(root + p, root + dir + k, prefix);
  }

  /** So a folder that does not overlap the prefix holds nothing wanted. */
  lemma PrunedIsEmpty(store: Store, root: string, prefix: string, dir: string, k: string)
    ensures WantedAt(store, root, prefix, dir, k) == {} || Overlaps(root + dir + k, prefix)
  {
    hide PathOk, FirstKey, Overlaps;
    if p :| p in WantedAt(store, root, prefix, dir, k) {
      WayOverlaps(root, prefix, dir, k, p);
    }
  }

  /** The records wanted through the folder k are those wanted under dir + k. */
  lemma FolderWanted(store: Store, root: string, prefix: string, dir: string, k: string)
    requires StoreOk(store) && (dir == "" || IsFolder(dir)) && k in Keys(store, dir) && IsFolder(k)
    ensures WantedAt(store, root, prefix, dir, k) == Wanted(store, root, prefix, dir + k)
    ensures exists p :: p in store && HasPrefix(p, dir + k) && |dir + k| < |p|
  {
    hide PathOk, FirstKey;
    var q :| q in store && HasPrefix(q, dir) && FirstKey(q[|dir|..]) == k;
    RestOk(store, dir, q);
    FirstKeyShape(q[|dir|..]);
    assert HasPrefix(q, dir + k) by { assert q == dir + q[|dir|..]; }
    forall p | p in store && HasPrefix(p, dir)
      ensures FirstKey(p[|dir|..]) == k <==> HasPrefix(p, dir + k)
    {
      RestOk(store, dir, p);
      FirstKeyIs(p[|dir|..], k);
      assert p == dir + p[|dir|..];
      assert HasPrefix(p, dir + k) <==> HasPrefix(p[|dir|..], k);
    }
    assert forall p :: HasPrefix(p, dir + k) ==> HasPrefix(p, dir);
  }

  lemma RestOk(store: Store, dir: string, p: string)
    requires StoreOk(store) && (dir == "" || IsFolder(dir)) && p in store && HasPrefix(p, dir)
    ensures p[|dir|..] != "" && p[|dir|..][|p[|dir|..]| - 1] != '/'
  {
    assert |p| == |dir| ==> p == dir;
  }

  /** The one record a key that is no folder stands for. */
  lemma RecordWanted(store: Store, root: string, prefix: string, dir: string, k: string)
    requires StoreOk(store) && (dir == "" || IsFolder(dir)) && k in Keys(store, dir) && !IsFolder(k)
    ensures dir + k in store
    ensures WantedAt(store, root, prefix, dir, k) ==
            if HasPrefix(root + (dir + k), prefix) && PathOk(root + (dir + k), false) then {dir + k} else {}
  {
    hide PathOk, FirstKey;
    var q :| q in store && HasPrefix(q, dir) && FirstKey(q[|dir|..]) == k;
    RestOk(store, dir, q);
    FirstKeyShape(q[|dir|..]);
    assert q == dir + k by { assert q == dir + q[|dir|..]; }
    forall p | p in store && HasPrefix(p, dir)
      ensures FirstKey(p[|dir|..]) == k <==> p == dir + k
    {
      OnlyThere(store, dir, k, p);
    }
    hide StoreOk, IsFolder, Keys;
  }

  /** A key that is no folder leads to one record. */
  lemma OnlyThere(store: Store, dir: string, k: string, p: string)
    requires StoreOk(store) && (dir == "" || IsFolder(dir)) && p in store && HasPrefix(p, dir)
    requires !IsFolder(k) && k != "" && '/' !in k[..|k| - 1]
    ensures FirstKey(p[|dir|..]) == k <==> p == dir + k
  {
    hide FirstKey;
    RestOk(store, dir, p);
    FirstKeyIs(p[|dir|..], k);
    assert p == dir + p[|dir|..];
  }

  /* ----- the walk ----- */

  const MAX_READS := 1000
  const MAX_LOCATIONS := 10000

  ghost predicate NoDuplicates(s: seq<string>) { forall i, j :: 0 <= i < j < |s| ==> s[i] != s[j] }

  ghost function Elements(s: seq<string>): set<string> { set x | x in s }

  /** The locations of the fields fs of one record. */
  ghost function Found(root: string, fieldPrefix: string, p: string, fs: set<string>): set<string> {
    set f | f in fs && HasPrefix(f, fieldPrefix) :: Location(root + p, f)
  }

  lemma FoundIsLocations(store: Store, root: string, fieldPrefix: string, done: set<string>, p: string)
    requires p in store
    ensures Locations(store, root, fieldPrefix, done + {p}) ==
            Locations(store, root, fieldPrefix, done) + Found(root, fieldPrefix, p, store[p])
  {
    hide Location;
  }

  /** A wanted record's path holds no '#', so its locations are no other record's. */
  lemma NotYetFound(store: Store, root: string, fieldPrefix: string, done: set<string>, p: string, fs: set<string>, f: string)
    requires p !in done && f !in fs && PathOk(root + p, false) && (forall q :: q in done ==> PathOk(root + q, false))
    ensures Location(root + p, f) !in Locations(store, root, fieldPrefix, done) + Found(root, fieldPrefix, p, fs)
  {
    NoHash(root + p);
    forall q, g | PathOk(root + q, false) && Location(root + p, f) == Location(root + q, g)
      ensures q == p
    {
      NoHash(root + q);
      LocationInjective(root + p, f, root + q, g);
      assert (root + p)[|root|..] == p && (root + q)[|root|..] == q;
    }
    forall g | Location(root + p, f) == Location(root + p, g)
      ensures f == g
    {
      LocationInjective(root + p, f, root + p, g);
    }
  }

  lemma NoHash(path: string)
    requires PathOk(path, false)
    ensures '#' !in path
  {
    assert Refused('#');
  }

  lemma OneMore(s: seq<string>, x: string)
    requires NoDuplicates(s) && x !in Elements(s)
    ensures NoDuplicates(s + [x]) && Elements(s + [x]) == Elements(s) + {x}
  {
  }

  lemma MoreRecordsMoreLocations(store: Store, root: string, fieldPrefix: string, ps: set<string>, qs: set<string>)
    requires ps <= qs
    ensures Locations(store, root, fieldPrefix, ps) <= Locations(store, root, fieldPrefix, qs)
  {
  }

  /** The records under dir wanted through the keys not yet visited. */
  ghost function Remaining(store: Store, root: string, prefix: string, dir: string, keys: set<string>): set<string> {
    set p | p in Wanted(store, root, prefix, dir) && FirstKey(p[|dir|..]) in keys
  }

  /** Every wanted record is found through exactly one key. */
  lemma KeysPartition(store: Store, root: string, prefix: string, dir: string, keys: set<string>, key: string)
    ensures Remaining(store, root, prefix, dir, Keys(store, dir)) == Wanted(store, root, prefix, dir)
    ensures Wanted(store, root, prefix, dir) <= Wanted(store, root, prefix, "")
    ensures Remaining(store, root, prefix, dir, {}) == {}
    ensures Remaining(store, root, prefix, dir, keys) <= Wanted(store, root, prefix, dir)
    ensures key in keys ==>
              && WantedAt(store, root, prefix, dir, key) !! Remaining(store, root, prefix, dir, keys - {key})
              && Remaining(store, root, prefix, dir, keys) ==
                 WantedAt(store, root, prefix, dir, key) + Remaining(store, root, prefix, dir, keys - {key})
  {
  }

  lemma WantedIsWanted(store: Store, root: string, prefix: string, dir: string, key: string)
    ensures WantedAt(store, root, prefix, dir, key) <= Wanted(store, root, prefix, "")
  {
  }

  /** What one List has read and found so far on one mount, after what it did on earlier ones. */
  class Lister {
    const root: string
    const store: Store
    const pathPrefix: string
    const fieldPrefix: string
    const readsBefore: nat
    const foundBefore: nat
    var readCount: nat
    var locations: seq<string>
    /** The records read in full. */
    ghost var done: set<string>

    ghost function All(): set<string> { Wanted(store, root, pathPrefix, "") }

    ghost function LocationsOf(ps: set<string>): set<string> { Locations(store, root, fieldPrefix, ps) }

    /** Each wanted record read once, each of its locations found once. */
    ghost predicate Valid()
      reads this
    {
      StoreOk(store) && readCount == readsBefore + |done| <= MAX_READS && FoundAll()
    }

    ghost predicate FoundAll()
      reads this
    {
      && done <= All() && foundBefore + |locations| <= MAX_LOCATIONS
      && NoDuplicates(locations) && Elements(locations) == LocationsOf(done)
    }

    /** A limit is reached with more still wanted. */
    ghost predicate OverLimit()
      reads this
    {
      || (done < All() && readsBefore + |done| == MAX_READS)
      || (NoDuplicates(locations) && foundBefore + |locations| == MAX_LOCATIONS && Elements(locations) < LocationsOf(All()))
    }

    constructor (r: string, s: Store, pp: string, fp: string, readCount': nat, found: nat)
      requires StoreOk(s) && readCount' <= MAX_READS && found <= MAX_LOCATIONS
      ensures root == r && store == s && pathPrefix == pp && fieldPrefix == fp && readsBefore == readCount' && foundBefore == found
      ensures Valid() && done == {} && locations == []
    {
      root, store, pathPrefix, fieldPrefix, readsBefore, foundBefore := r, s, pp, fp, readCount', found;
      readCount, locations, done := readCount', [], {};
      new;
      hide PathOk;
      assert Elements([]) == {} == LocationsOf({});
    }

    /** Appends the location of each of the record's fields that has the prefix. */
    method Emit(p: string) returns (ok: bool)
      requires FoundAll() && p in All() && p !in done
      modifies `locations
      ensures foundBefore + |locations| <= MAX_LOCATIONS && NoDuplicates(locations)
      ensures ok ==> Elements(locations) == LocationsOf(done + {p})
      ensures !ok ==> foundBefore + |locations| == MAX_LOCATIONS && Elements(locations) < LocationsOf(done + {p})
    {
      hide PathOk, Location, NoDuplicates, Elements, Locations;
      var fields := store[p];
      FoundIsLocations(store, root, fieldPrefix, done, p);
      ghost var before := LocationsOf(done);
      assert Found(root, fieldPrefix, p, store[p] - fields) == {};
      while fields != {}
        invariant fields <= store[p] && foundBefore + |locations| <= MAX_LOCATIONS && NoDuplicates(locations)
        invariant Elements(locations) == before + Found(root, fieldPrefix, p, store[p] - fields)
        decreases fields
      {
        var f :| f in fields;
        ghost var fs := store[p] - fields;
        assert store[p] - (fields - {f}) == fs + {f};
        if HasPrefix(f, fieldPrefix) {
          var location := Location(root + p, f);
          NotYetFound(store, root, fieldPrefix, done, p, fs, f);
          assert location in Found(root, fieldPrefix, p, store[p]);
          if foundBefore + |locations| == MAX_LOCATIONS {
            assert Found(root, fieldPrefix, p, fs) <= Found(root, fieldPrefix, p, store[p]);
            return false;
          }
          OneMore(locations, location);
          locations := locations + [location];
          assert Found(root, fieldPrefix, p, fs + {f}) == Found(root, fieldPrefix, p, fs) + {location};
        } else {
          assert Found(root, fieldPrefix, p, fs + {f}) == Found(root, fieldPrefix, p, fs);
        }
        fields := fields - {f};
      }
      assert store[p] - {} == store[p];
      return true;
    }

    /** Reads one wanted record, unless that would be one read too many. */
    method ReadRecord(p: string) returns (ok: bool)
      requires Valid() && p in All() && p !in done
      modifies this
      ensures ok ==> Valid() && done == old(done) + {p}
      ensures !ok ==> OverLimit()
    {
      hide PathOk, Location, NoDuplicates, Elements, Locations;
      if readCount == MAX_READS {
        return false;
      }
      readCount := readCount + 1;
      ok := Emit(p);
      if ok {
        done := done + {p};
      } else {
        MoreRecordsMoreLocations(store, root, fieldPrefix, done + {p}, All());
      }
    }

    /** Walks the records under dir: on success it has read exactly the wanted ones, besides
        those read before; it fails only when a limit is exceeded. */
    method Walk(dir: string, ghost bound: nat) returns (ok: bool)
      requires Valid() && (dir == "" || IsFolder(dir))
      requires done !! Wanted(store, root, pathPrefix, dir)
      requires forall p :: p in store ==> |p| < bound
      modifies this
      ensures ok ==> Valid() && done == old(done) + Wanted(store, root, pathPrefix, dir)
      ensures !ok ==> OverLimit()
      decreases bound - |dir|, 1
    {
      hide PathOk, FirstKey, Wanted, WantedAt, Remaining, Lister.FoundAll, StoreOk, Keys;
      var keys := Keys(store, dir);
      ghost var wanted := Wanted(store, root, pathPrefix, dir);
      KeysPartition(store, root, pathPrefix, dir, keys, "");
      while keys != {}
        invariant Valid() && keys <= Keys(store, dir)
        invariant done !! Remaining(store, root, pathPrefix, dir, keys)
        invariant done + Remaining(store, root, pathPrefix, dir, keys) == old(done) + wanted
        decreases keys
      {
        var key :| key in keys;
        KeysPartition(store, root, pathPrefix, dir, keys, key);
        keys := keys - {key};
        ok := Visit(dir, key, bound);
        if !ok {
          return;
        }
      }
      ok := true;
    }

    /** Follows one key below dir: into a folder that overlaps the prefix, or to a record. */
    method Visit(dir: string, key: string, ghost bound: nat) returns (ok: bool)
      requires Valid() && (dir == "" || IsFolder(dir)) && key in Keys(store, dir)
      requires done !! WantedAt(store, root, pathPrefix, dir, key)
      requires forall p :: p in store ==> |p| < bound
      modifies this
      ensures ok ==> Valid() && done == old(done) + WantedAt(store, root, pathPrefix, dir, key)
      ensures !ok ==> OverLimit()
      decreases bound - |dir|, 0
    {
      hide PathOk, FirstKey, Wanted, WantedAt, Remaining, Lister.FoundAll, StoreOk, Keys;
      if IsFolder(key) {
        FolderWanted(store, root, pathPrefix, dir, key);
        PrunedIsEmpty(store, root, pathPrefix, dir, key);
        if Overlaps(root + dir + key, pathPrefix) {
          ok := Walk(dir + key, bound);
          return;
        }
      } else {
        RecordWanted(store, root, pathPrefix, dir, key);
        WantedIsWanted(store, root, pathPrefix, dir, key);
        var p := dir + key;
        if HasPrefix(root + p, pathPrefix) && PathOk(root + p, false) {
          assert p in WantedAt(store, root, pathPrefix, dir, key);
          ok := ReadRecord(p);
          return;
        }
      }
      ok := true;
    }
  }

  /* ----- one mount ----- */

  datatype Listing = Listed(locations: seq<string>) | BadPrefix | TooMany

  /** Without a '#', a prefix of a location is a prefix of its path. */
  lemma PathPrefixes(path: string, f: string, prefix: string)
    requires '#' !in path && '#' !in prefix
    ensures HasPrefix(Location(path, f), prefix) <==> HasPrefix(path, prefix)
  {
    var s := Location(path, f);
    assert s[..|path|] == path && s[|path|] == '#';
    if HasPrefix(s, prefix) {
      var h := path + "#";
      assert h[|path|] == '#' && HasPrefix(s, h);
      PrefixesCompare(s, prefix, h);
      assert HasPrefix(prefix, h) ==> '#' in prefix;
      assert HasPrefix(h, prefix);
      assert prefix != h;
      assert h[..|path|] == path;
    }
    if HasPrefix(path, prefix) {
      assert s[..|prefix|] == path[..|prefix|];
    }
  }

  /** With one, it names the whole path and a prefix of the field. */
  lemma FieldPrefixes(path: string, f: string, pathPrefix: string, fieldPrefix: string)
    requires '#' !in path && '#' !in pathPrefix
    ensures HasPrefix(Location(path, f), Location(pathPrefix, fieldPrefix)) <==> path == pathPrefix && HasPrefix(f, fieldPrefix)
  {
    var s, t := Location(path, f), Location(pathPrefix, fieldPrefix);
    if HasPrefix(s, t) {
      var g := s[|t|..];
      assert s == t + g == Location(pathPrefix, fieldPrefix + g);
      LocationInjective(path, f, pathPrefix, fieldPrefix + g);
    }
    if path == pathPrefix && HasPrefix(f, fieldPrefix) {
      assert s[..|t|] == t;
    }
  }

  lemma AllHaveEmptyPrefix()
    ensures forall s :: HasPrefix(s, "")
  {
  }

  lemma MatchingPaths(store: Store, root: string, prefix: string)
    requires '#' !in prefix
    ensures Matching(store, root, prefix) == Locations(store, root, "", Wanted(store, root, prefix, ""))
  {
    hide PathOk, Location, HasPrefix;
    AllHaveEmptyPrefix();
    var wanted := Wanted(store, root, prefix, "");
    forall x | x in Matching(store, root, prefix)
      ensures x in Locations(store, root, "", wanted)
    {
      var p, f :| p in store && f in store[p] && PathOk(root + p, false)
                  && HasPrefix(Location(root + p, f), prefix) && x == Location(root + p, f);
      NoHash(root + p);
      PathPrefixes(root + p, f, prefix);
      assert HasPrefix(f, "") && HasPrefix(p, "");
      assert p in wanted;
    }
    forall x | x in Locations(store, root, "", wanted)
      ensures x in Matching(store, root, prefix)
    {
      var p, f :| p in wanted && p in store && f in store[p] && x == Location(root + p, f);
      NoHash(root + p);
      PathPrefixes(root + p, f, prefix);
    }
  }

  lemma MatchingFields(store: Store, root: string, pathPrefix: string, fieldPrefix: string, q: string)
    requires '#' !in pathPrefix && pathPrefix == root + q
    ensures Matching(store, root, Location(pathPrefix, fieldPrefix)) ==
            Locations(store, root, fieldPrefix, if PathOk(pathPrefix, false) then {q} else {})
  {
    hide PathOk, Location, HasPrefix;
    var qs := if PathOk(pathPrefix, false) then {q} else {};
    forall x | x in Matching(store, root, Location(pathPrefix, fieldPrefix))
      ensures x in Locations(store, root, fieldPrefix, qs)
    {
      var p, f :| p in store && f in store[p] && PathOk(root + p, false)
                  && HasPrefix(Location(root + p, f), Location(pathPrefix, fieldPrefix)) && x == Location(root + p, f);
      NoHash(root + p);
      FieldPrefixes(root + p, f, pathPrefix, fieldPrefix);
      assert (root + p)[|root|..] == p && (root + q)[|root|..] == q;
      assert p in qs;
    }
    forall x | x in Locations(store, root, fieldPrefix, qs)
      ensures x in Matching(store, root, Location(pathPrefix, fieldPrefix))
    {
      var p, f :| p in qs && p in store && f in store[p] && HasPrefix(f, fieldPrefix) && x == Location(root + p, f);
      FieldPrefixes(root + p, f, pathPrefix, fieldPrefix);
    }
  }

  /** A prefix off the mount matches nothing on it. */
  lemma NothingWanted(store: Store, root: string, prefix: string)
    ensures Wanted(store, root, prefix, "") == {} || Overlaps(root, prefix)
  {
    hide PathOk;
    if p :| p in Wanted(store, root, prefix, "") {
      PrefixesCompare(root + p, root, prefix);
    }
  }

  lemma NoMatchOffMount(store: Store, root: string, pathPrefix: string, fieldPrefix: string)
    requires '#' !in pathPrefix
    ensures Matching(store, root, Location(pathPrefix, fieldPrefix)) == {} || HasPrefix(pathPrefix, root)
  {
    hide PathOk;
    if x :| x in Matching(store, root, Location(pathPrefix, fieldPrefix)) {
      var p, f :| p in store && f in store[p] && PathOk(root + p, false)
                  && HasPrefix(Location(root + p, f), Location(pathPrefix, fieldPrefix)) && x == Location(root + p, f);
      NoHash(root + p);
      FieldPrefixes(root + p, f, pathPrefix, fieldPrefix);
    }
  }

  lemma SortedElements(s: seq<string>)
    requires NoDuplicates(s)
    ensures var r := Sort(s, Leq); Sorted(r, Leq) && NoDuplicates(r) && Elements(r) == Elements(s) && |r| == |s|
  {
    StringsAreOrdered();
    SortKeeps(s, Leq);
    var r := Sort(s, Leq);
    assert forall x :: x in r <==> x in multiset(r);
    assert forall x :: x in s <==> x in multiset(s);
    assert |r| == |multiset(r)| == |multiset(s)| == |s|;
    OnceEach(s);
    OnceEachMeans(r);
  }

  lemma {:induction false} OnceEach(s: seq<string>)
    requires NoDuplicates(s)
    ensures forall x :: multiset(s)[x] <= 1
  {
    if s != [] {
      OnceEach(s[1..]);
      assert s == [s[0]] + s[1..];
      assert s[0] !in s[1..];
    }
  }

  lemma {:induction false} OnceEachMeans(s: seq<string>)
    requires forall x :: multiset(s)[x] <= 1
    ensures NoDuplicates(s)
  {
    if s != [] {
      assert s == [s[0]] + s[1..];
      assert multiset(s) == multiset{s[0]} + multiset(s[1..]);
      assert multiset(s)[s[0]] == 1 + multiset(s[1..])[s[0]];
      assert forall x :: multiset(s[1..])[x] <= multiset(s)[x];
      OnceEachMeans(s[1..]);
      assert forall j :: 0 < j < |s| ==> s[j] == s[1..][j - 1] && s[j] in s[1..];
    }
  }

  lemma {:induction false} DistinctCount(s: seq<string>)
    requires NoDuplicates(s)
    ensures |Elements(s)| == |s|
  {
    if s != [] {
      DistinctCount(s[1..]);
      assert Elements(s) == {s[0]} + Elements(s[1..]);
      assert s[0] !in s[1..];
    }
  }

  /** A prefix that names a whole record: read that one record. */
  method ListField(l: Lister, prefix: string) returns (ok: bool)
    requires l.Valid() && l.done == {} && l.locations == [] && l.readsBefore < MAX_READS
    requires prefix == Location(l.pathPrefix, l.fieldPrefix) && '#' !in l.pathPrefix && PathOk(l.pathPrefix, true)
    modifies l
    ensures NoDuplicates(l.locations) && l.foundBefore + |l.locations| <= MAX_LOCATIONS
    ensures l.readCount == if HasPrefix(l.pathPrefix, l.root) then l.readsBefore + 1 else l.readsBefore
    ensures ok ==> Elements(l.locations) == Matching(l.store, l.root, prefix)
    ensures !ok ==> l.foundBefore + |Matching(l.store, l.root, prefix)| > MAX_LOCATIONS
  {
    hide FirstKey, Wanted, Matching, Locations, NoDuplicates, Elements, Location;
    NoMatchOffMount(l.store, l.root, l.pathPrefix, l.fieldPrefix);
    NoRecords(l.store, l.root, l.fieldPrefix);
    if !HasPrefix(l.pathPrefix, l.root) {
      return true;
    }
    var q := l.pathPrefix[|l.root|..];
    assert l.pathPrefix == l.root + q;
    MatchingFields(l.store, l.root, l.pathPrefix, l.fieldPrefix, q);
    l.readCount := l.readCount + 1;
    if q !in l.store {
      MissingRecord(l.store, l.root, l.fieldPrefix, q);
      return true;
    }
    WantedSelf(l.store, l.root, q);
    ok := l.Emit(q);
    assert {} + {q} == {q};
    if !ok {
      DistinctCount(l.locations);
      ProperlyFewer(Elements(l.locations), Matching(l.store, l.root, prefix));
    }
  }

  /** Any other prefix: walk the mount, if it overlaps. */
  method ListPath(l: Lister) returns (ok: bool)
    requires l.Valid() && l.done == {} && l.locations == [] && l.fieldPrefix == "" && '#' !in l.pathPrefix
    modifies l
    ensures ok ==>
              && NoDuplicates(l.locations) && l.foundBefore + |l.locations| <= MAX_LOCATIONS
              && Elements(l.locations) == Matching(l.store, l.root, l.pathPrefix)
              && l.readCount == l.readsBefore + |Wanted(l.store, l.root, l.pathPrefix, "")| <= MAX_READS
    ensures !ok ==>
              || l.readsBefore + |Wanted(l.store, l.root, l.pathPrefix, "")| > MAX_READS
              || l.foundBefore + |Matching(l.store, l.root, l.pathPrefix)| > MAX_LOCATIONS
  {
    hide FirstKey, Wanted, Matching, Locations, NoDuplicates, Elements, Location, PathOk, StoreOk;
    MatchingPaths(l.store, l.root, l.pathPrefix);
    NothingWanted(l.store, l.root, l.pathPrefix);
    if !Overlaps(l.root, l.pathPrefix) {
      return true;
    }
    ghost var bound := LongestPath(l.store);
    ok := l.Walk("", bound);
    if ok {
      assert l.done == Wanted(l.store, l.root, l.pathPrefix, "");
    } else if l.done < l.All() && l.readsBefore + |l.done| == MAX_READS {
      ProperlyFewer(l.done, l.All());
    } else {
      DistinctCount(l.locations);
      ProperlyFewer(Elements(l.locations), Matching(l.store, l.root, l.pathPrefix));
    }
  }

  /* ----- mounts ----- */

  /** A KV mount: its path with the trailing slash, its version, and its records. */
  datatype Mount = Mount(path: string, v2: bool, store: Store)
  {
    /** dataRoot. */
    function Root(): string { if v2 then path + "data/" else path }
  }

  /** Neither mount lies within the other. */
  predicate Apart(a: Mount, b: Mount) { !HasPrefix(a.path, b.path) && !HasPrefix(b.path, a.path) }

  /** The server mounts no engine within another. */
  ghost predicate MountsOk(ms: seq<Mount>) {
    && (forall i :: 0 <= i < |ms| ==> StoreOk(ms[i].store) && IsFolder(ms[i].path))
    && (forall i, j :: 0 <= i < j < |ms| ==> Apart(ms[i], ms[j]))
  }

  ghost function MatchingOn(m: Mount, prefix: string): set<string> { Matching(m.store, m.Root(), prefix) }

  /** Every location on these mounts that starts with the prefix. */
  ghost function MatchingAll(ms: seq<Mount>, prefix: string): set<string> {
    if ms == [] then {} else MatchingAll(ms[..|ms| - 1], prefix) + MatchingOn(ms[|ms| - 1], prefix)
  }

  /** How many records on these mounts a walk for the path prefix has to read. */
  ghost function WantedAll(ms: seq<Mount>, prefix: string): nat {
    if ms == [] then 0
    else WantedAll(ms[..|ms| - 1], prefix) + |Wanted(ms[|ms| - 1].store, ms[|ms| - 1].Root(), prefix, "")|
  }

  lemma {:induction false} InAll(ms: seq<Mount>, prefix: string, x: string)
    ensures x in MatchingAll(ms, prefix) <==> exists i :: 0 <= i < |ms| && x in MatchingOn(ms[i], prefix)
  {
    hide MatchingOn;
    if ms != [] {
      var n := |ms| - 1;
      InAll(ms[..n], prefix, x);
      if i :| 0 <= i < n && x in MatchingOn(ms[..n][i], prefix) {
        assert x in MatchingOn(ms[i], prefix);
      }
      if i :| 0 <= i < |ms| && x in MatchingOn(ms[i], prefix) {
        assert i < n ==> x in MatchingOn(ms[..n][i], prefix);
      }
    }
  }

  /** What matches: field f of record p, under `data/` on a KV v2 mount, if the whole starts with the
      prefix and the path is one a location can hold. */
  lemma MatchingMeans(ms: seq<Mount>, prefix: string, x: string)
    ensures x in MatchingAll(ms, prefix) <==>
              exists m, p, f ::
                && m in ms && p in m.store && f in m.store[p] && prefix <= x
                && x == (if m.v2 then m.path + "data/" + p else m.path + p) + "#" + f
                && PathOk(if m.v2 then m.path + "data/" + p else m.path + p, false)
  {
    hide PathOk;
    InAll(ms, prefix, x);
    if m, p, f :| && m in ms && p in m.store && f in m.store[p] && prefix <= x
                  && x == (if m.v2 then m.path + "data/" + p else m.path + p) + "#" + f
                  && PathOk(if m.v2 then m.path + "data/" + p else m.path + p, false) {
      var i :| 0 <= i < |ms| && ms[i] == m;
      assert x == Location(m.Root() + p, f) && x in MatchingOn(ms[i], prefix);
    }
    if i :| 0 <= i < |ms| && x in MatchingOn(ms[i], prefix) {
      var p, f :| && p in ms[i].store && f in ms[i].store[p] && PathOk(ms[i].Root() + p, false)
                  && HasPrefix(Location(ms[i].Root() + p, f), prefix) && x == Location(ms[i].Root() + p, f);
      assert ms[i] in ms;
    }
  }

  /** What matches on a mount starts with its path. */
  lemma OnMount(m: Mount, prefix: string, x: string)
    requires x in MatchingOn(m, prefix)
    ensures HasPrefix(x, m.path) && HasPrefix(x, prefix)
  {
    hide PathOk;
    var p, f :| p in m.store && f in m.store[p] && PathOk(m.Root() + p, false)
                && HasPrefix(Location(m.Root() + p, f), prefix) && x == Location(m.Root() + p, f);
    assert x == m.path + x[|m.path|..];
  }

  lemma MountsDisjoint(a: Mount, b: Mount, prefix: string)
    requires Apart(a, b)
    ensures MatchingOn(a, prefix) !! MatchingOn(b, prefix)
  {
    hide MatchingOn;
    forall x | x in MatchingOn(a, prefix)
      ensures x !in MatchingOn(b, prefix)
    {
      OnMount(a, prefix, x);
      if x in MatchingOn(b, prefix) {
        OnMount(b, prefix, x);
        PrefixesCompare(x, a.path, b.path);
      }
    }
  }

  lemma {:induction false} EarlierDisjoint(ms: seq<Mount>, prefix: string, n: nat)
    requires MountsOk(ms) && n < |ms|
    ensures MatchingAll(ms[..n], prefix) !! MatchingOn(ms[n], prefix)
  {
    hide MatchingOn, Apart;
    forall x | x in MatchingAll(ms[..n], prefix)
      ensures x !in MatchingOn(ms[n], prefix)
    {
      InAll(ms[..n], prefix, x);
      var i :| 0 <= i < n && x in MatchingOn(ms[..n][i], prefix);
      MountsDisjoint(ms[i], ms[n], prefix);
    }
  }

  lemma {:induction false} TotalsGrow(ms: seq<Mount>, prefix: string, n: nat)
    requires n <= |ms|
    ensures MatchingAll(ms[..n], prefix) <= MatchingAll(ms, prefix) && WantedAll(ms[..n], prefix) <= WantedAll(ms, prefix)
  {
    hide MatchingOn, Wanted;
    if n < |ms| {
      TotalsGrow(ms[..|ms| - 1], prefix, n);
      assert ms[..|ms| - 1][..n] == ms[..n];
    } else {
      assert ms[..n] == ms;
    }
  }

  lemma OneMoreMount(ms: seq<Mount>, prefix: string, n: nat, found: seq<string>, more: seq<string>)
    requires MountsOk(ms) && n < |ms| && NoDuplicates(found) && Elements(found) == MatchingAll(ms[..n], prefix)
    requires NoDuplicates(more) && Elements(more) == MatchingOn(ms[n], prefix)
    ensures NoDuplicates(found + more) && Elements(found + more) == MatchingAll(ms[..n + 1], prefix)
  {
    EarlierDisjoint(ms, prefix, n);
    assert ms[..n + 1][..n] == ms[..n];
    hide MatchingOn, MountsOk, NoDuplicates, Elements;
    ConcatDistinct(found, more);
  }

  lemma ConcatDistinct(a: seq<string>, b: seq<string>)
    requires NoDuplicates(a) && NoDuplicates(b) && Elements(a) !! Elements(b)
    ensures NoDuplicates(a + b) && Elements(a + b) == Elements(a) + Elements(b)
  {
    var s := a + b;
    forall i, j | 0 <= i < j < |s|
      ensures s[i] != s[j]
    {
      assert i < |a| ==> s[i] in Elements(a);
      assert j >= |a| ==> s[j] == b[j - |a|] && s[j] in Elements(b);
      assert i >= |a| ==> s[i] == b[i - |a|];
    }
  }

  /** Too much on the mounts up to one is too much on all. */
  lemma OverOnAll(ms: seq<Mount>, prefix: string, n: nat, found: seq<string>)
    requires MountsOk(ms) && n < |ms| && NoDuplicates(found) && Elements(found) == MatchingAll(ms[..n], prefix)
    ensures |found| + |MatchingOn(ms[n], prefix)| > MAX_LOCATIONS ==> |MatchingAll(ms, prefix)| > MAX_LOCATIONS
    ensures WantedAll(ms[..n], prefix) + |Wanted(ms[n].store, ms[n].Root(), prefix, "")| <= WantedAll(ms, prefix)
  {
    hide MatchingOn, Wanted, Apart, MountsOk, NoDuplicates, Elements;
    EarlierDisjoint(ms, prefix, n);
    DistinctCount(found);
    assert ms[..n + 1][..n] == ms[..n];
    TotalsGrow(ms, prefix, n + 1);
    Fewer(MatchingAll(ms[..n + 1], prefix), MatchingAll(ms, prefix));
  }

  /* ----- List ----- */

  /** The mount that holds the path, as the server reports it: the first whose path it is in. */
  function Holder(ms: seq<Mount>, path: string): Option<Mount> {
    if ms == [] then None
    else if HasPrefix(path + "/", ms[0].path) then Some(ms[0])
    else Holder(ms[1..], path)
  }

  function Starting(ms: seq<Mount>, prefix: string): seq<Mount> {
    if ms == [] then []
    else if HasPrefix(ms[|ms| - 1].path, prefix) then Starting(ms[..|ms| - 1], prefix) + [ms[|ms| - 1]]
    else Starting(ms[..|ms| - 1], prefix)
  }

  /** The mounts List walks. */
  function Select(ms: seq<Mount>, pathPrefix: string): seq<Mount> {
    if pathPrefix == "" then ms
    else if Holder(ms, pathPrefix).Some? then [Holder(ms, pathPrefix).value]
    else Starting(ms, pathPrefix)
  }

  lemma {:induction false} HolderIs(ms: seq<Mount>, path: string)
    ensures Holder(ms, path).Some? ==> Holder(ms, path).value in ms && HasPrefix(path + "/", Holder(ms, path).value.path)
    ensures Holder(ms, path).None? ==> forall m :: m in ms ==> !HasPrefix(path + "/", m.path)
  {
    if ms != [] {
      HolderIs(ms[1..], path);
      assert forall m :: m in ms ==> m == ms[0] || m in ms[1..];
    }
  }

  lemma {:induction false} StartingIs(ms: seq<Mount>, prefix: string)
    ensures forall m :: m in Starting(ms, prefix) <==> m in ms && HasPrefix(m.path, prefix)
    ensures MountsOk(ms) ==> MountsOk(Starting(ms, prefix))
  {
    hide Apart, StoreOk;
    if ms != [] {
      var n := |ms| - 1;
      StartingIs(ms[..n], prefix);
      assert forall m :: m in ms <==> m == ms[n] || m in ms[..n];
      if MountsOk(ms) {
        var a := Starting(ms[..n], prefix);
        assert MountsOk(ms[..n]);
        forall i | 0 <= i < |a|
          ensures Apart(a[i], ms[n])
        {
          assert a[i] in ms[..n];
        }
      }
    }
  }

  lemma SelectIsOk(ms: seq<Mount>, pathPrefix: string)
    requires MountsOk(ms)
    ensures MountsOk(Select(ms, pathPrefix)) && forall m :: m in Select(ms, pathPrefix) ==> m in ms
  {
    HolderIs(ms, pathPrefix);
    StartingIs(ms, pathPrefix);
  }

  /** List returns, in order and once each, exactly the locations that start with the prefix on the
      mounts it selects, and refuses exactly when these hold too many records or locations for it. */
  method List(mounts: seq<Mount>, prefix: string) returns (r: Listing)
    requires MountsOk(mounts)
    ensures var pathPrefix := prefix[..IndexOf(prefix, '#')];
            var ms := Select(mounts, pathPrefix);
            && (r.BadPrefix? <==> !PathOk(pathPrefix, true))
            && (r.Listed? ==>
                  Sorted(r.locations, Leq) && NoDuplicates(r.locations) && Elements(r.locations) == MatchingAll(ms, prefix))
            && (r.TooMany? ==>
                  ('#' !in prefix && WantedAll(ms, prefix) > MAX_READS) || |MatchingAll(ms, prefix)| > MAX_LOCATIONS)
            && (r.Listed? ==>
                  ('#' !in prefix ==> WantedAll(ms, prefix) <= MAX_READS) && |MatchingAll(ms, prefix)| <= MAX_LOCATIONS)
  {
    hide PathOk, Wanted, Matching, NoDuplicates, Elements, HasPrefix, Sorted, MountsOk, Select, MatchingAll, WantedAll;
    var i := IndexOf(prefix, '#');
    var pathPrefix, hasField := prefix[..i], i < |prefix|;
    if !PathOk(pathPrefix, true) {
      return BadPrefix;
    }
    var ms := Select(mounts, pathPrefix);
    SelectIsOk(mounts, pathPrefix);
    var found: Option<seq<string>>;
    if hasField {
      assert prefix == Location(pathPrefix, prefix[i + 1..]);
      found := ListFields(ms, prefix, pathPrefix, prefix[i + 1..]);
    } else {
      assert prefix == pathPrefix;
      found := ListPaths(ms, prefix);
    }
    if found.None? {
      return TooMany;
    }
    SortedElements(found.value);
    DistinctCount(found.value);
    return Listed(Sort(found.value, Leq));
  }

  lemma NothingYet(ms: seq<Mount>, prefix: string)
    ensures NoDuplicates([]) && Elements([]) == MatchingAll(ms[..0], prefix) && WantedAll(ms[..0], prefix) == 0
  {
  }

  method ListPaths(ms: seq<Mount>, prefix: string) returns (found: Option<seq<string>>)
    requires MountsOk(ms) && '#' !in prefix
    ensures found.Some? ==>
              && NoDuplicates(found.value) && Elements(found.value) == MatchingAll(ms, prefix)
              && |found.value| <= MAX_LOCATIONS && WantedAll(ms, prefix) <= MAX_READS
    ensures found.None? ==> WantedAll(ms, prefix) > MAX_READS || |MatchingAll(ms, prefix)| > MAX_LOCATIONS
  {
    hide PathOk, Wanted, Matching, NoDuplicates, Elements, HasPrefix, Apart, StoreOk, MatchingAll;
    var locations: seq<string>, readCount := [], 0;
    NothingYet(ms, prefix);
    for k := 0 to |ms|
      invariant NoDuplicates(locations) && Elements(locations) == MatchingAll(ms[..k], prefix) && |locations| <= MAX_LOCATIONS
      invariant readCount == WantedAll(ms[..k], prefix) <= MAX_READS
    {
      var l := new Lister(ms[k].Root(), ms[k].store, prefix, "", readCount, |locations|);
      var ok := ListPath(l);
      OverOnAll(ms, prefix, k, locations);
      if !ok {
        return None;
      }
      OneMoreMount(ms, prefix, k, locations, l.locations);
      assert ms[..k + 1][..k] == ms[..k];
      locations, readCount := locations + l.locations, l.readCount;
    }
    assert ms[..|ms|] == ms;
    return Some(locations);
  }

  method ListFields(ms: seq<Mount>, prefix: string, pathPrefix: string, fieldPrefix: string) returns (found: Option<seq<string>>)
    requires MountsOk(ms) && '#' !in pathPrefix && PathOk(pathPrefix, true) && prefix == Location(pathPrefix, fieldPrefix)
    ensures found.Some? ==>
              NoDuplicates(found.value) && Elements(found.value) == MatchingAll(ms, prefix) && |found.value| <= MAX_LOCATIONS
    ensures found.None? ==> |MatchingAll(ms, prefix)| > MAX_LOCATIONS
  {
    hide PathOk, Wanted, Matching, NoDuplicates, Elements, StoreOk, MatchingAll, WantedAll, HasPrefix, Apart, Mount.Root;
    var locations: seq<string>, readCount := [], 0;
    NothingYet(ms, prefix);
    for k := 0 to |ms|
      invariant NoDuplicates(locations) && Elements(locations) == MatchingAll(ms[..k], prefix) && |locations| <= MAX_LOCATIONS
      invariant readCount <= 1 && (readCount == 1 ==> exists i :: 0 <= i < k && HasPrefix(pathPrefix, ms[i].Root()))
    {
      var l := new Lister(ms[k].Root(), ms[k].store, pathPrefix, fieldPrefix, readCount, |locations|);
      var ok := ListField(l, prefix);
      OverOnAll(ms, prefix, k, locations);
      if !ok {
        return None;
      }
      OneMoreMount(ms, prefix, k, locations, l.locations);
      OnOneMount(ms, pathPrefix, k);
      locations, readCount := locations + l.locations, l.readCount;
    }
    assert ms[..|ms|] == ms;
    return Some(locations);
  }

  /** A path lies on one mount at most. */
  lemma OnOneMount(ms: seq<Mount>, path: string, k: nat)
    requires MountsOk(ms) && k < |ms|
    ensures HasPrefix(path, ms[k].Root()) ==> forall i :: 0 <= i < k ==> !HasPrefix(path, ms[i].Root())
  {
    forall i | 0 <= i < k && HasPrefix(path, ms[k].Root())
      ensures !HasPrefix(path, ms[i].Root())
    {
      assert Apart(ms[i], ms[k]);
      if HasPrefix(path, ms[i].Root()) {
        assert path[..|ms[i].path|] == ms[i].path && path[..|ms[k].path|] == ms[k].path;
        PrefixesCompare(path, ms[i].path, ms[k].path);
      }
    }
  }

  /* ----- does List return every location that starts with the prefix? ----- */

  /** The prefix is the path of one mount but for its slash, and another mount whose path starts with
      it holds a match: `secret` with mounts at `secret/` and `secrets/`. */
  ghost predicate Misses(ms: seq<Mount>, pathPrefix: string, prefix: string) {
    && pathPrefix != ""
    && (exists h :: h in ms && h.path == pathPrefix + "/")
    && exists m :: m in ms && m.path != pathPrefix + "/" && HasPrefix(m.path, pathPrefix) && MatchingOn(m, prefix) != {}
  }

  lemma AllMembers(ms: seq<Mount>, prefix: string, m: Mount, x: string)
    requires m in ms && x in MatchingOn(m, prefix)
    ensures x in MatchingAll(ms, prefix)
  {
    InAll(ms, prefix, x);
  }

  /** A mount with a match that List does not select is one it misses. */
  lemma Unselected(ms: seq<Mount>, pathPrefix: string, prefix: string, m: Mount, x: string)
    requires MountsOk(ms) && HasPrefix(prefix, pathPrefix) && m in ms && x in MatchingOn(m, prefix)
    ensures m in Select(ms, pathPrefix) || Misses(ms, pathPrefix, prefix)
  {
    OnMount(m, prefix, x);
    assert x[..|pathPrefix|] == pathPrefix;
    PrefixesCompare(x, m.path, pathPrefix);
    assert HasPrefix(pathPrefix, m.path) ==> (pathPrefix + "/")[..|m.path|] == m.path;
    HolderIs(ms, pathPrefix);
    StartingIs(ms, pathPrefix);
    hide MatchingOn, Holder, Starting;
    if pathPrefix != "" && Holder(ms, pathPrefix).Some? {
      var h := Holder(ms, pathPrefix).value;
      HeldApart(ms, h, m, pathPrefix);
      hide MountsOk, HasPrefix;
      assert h == m || (HasPrefix(m.path, pathPrefix) && h.path == pathPrefix + "/" && m.path != h.path);
    } else {
      hide MountsOk;
    }
  }

  /** Of two mounts only one can hold the path. */
  lemma HeldApart(ms: seq<Mount>, h: Mount, m: Mount, path: string)
    requires MountsOk(ms) && h in ms && m in ms && HasPrefix(path + "/", h.path)
    ensures h == m || (!HasPrefix(path + "/", m.path) && m.path != h.path)
    ensures HasPrefix(m.path, path) ==> h == m || h.path == path + "/"
  {
    MembersApart(ms, h, m);
    hide MountsOk;
    if HasPrefix(path + "/", m.path) {
      PrefixesCompare(path + "/", h.path, m.path);
    }
    if |h.path| <= |path| {
      assert (path + "/")[..|h.path|] == path[..|h.path|];
      assert HasPrefix(m.path, path) ==> m.path[..|h.path|] == path[..|h.path|];
    } else {
      assert h.path == path + "/";
    }
  }

  lemma MembersApart(ms: seq<Mount>, a: Mount, b: Mount)
    requires MountsOk(ms) && a in ms && b in ms
    ensures a == b || Apart(a, b)
  {
    hide StoreOk, IsFolder;
    var i :| 0 <= i < |ms| && ms[i] == a;
    var j :| 0 <= j < |ms| && ms[j] == b;
    assert i < j ==> Apart(ms[i], ms[j]);
    assert j < i ==> Apart(ms[j], ms[i]);
  }

  /** List returns every location that starts with the prefix, on whatever mount, exactly when it
      misses none in this way. */
  lemma ListsEverything(ms: seq<Mount>, pathPrefix: string, prefix: string)
    requires MountsOk(ms) && HasPrefix(prefix, pathPrefix)
    ensures MatchingAll(Select(ms, pathPrefix), prefix) == MatchingAll(ms, prefix) <==> !Misses(ms, pathPrefix, prefix)
  {
    var sel := Select(ms, pathPrefix);
    SelectIsOk(ms, pathPrefix);
    hide Select, MatchingOn, MountsOk, Misses;
    forall x | x in MatchingAll(sel, prefix)
      ensures x in MatchingAll(ms, prefix)
    {
      InAll(sel, prefix, x);
      var i :| 0 <= i < |sel| && x in MatchingOn(sel[i], prefix);
      AllMembers(ms, prefix, sel[i], x);
    }
    if Misses(ms, pathPrefix, prefix) {
      MissedIsLost(ms, pathPrefix, prefix);
    } else {
      forall x | x in MatchingAll(ms, prefix)
        ensures x in MatchingAll(sel, prefix)
      {
        InAll(ms, prefix, x);
        var i :| 0 <= i < |ms| && x in MatchingOn(ms[i], prefix);
        Unselected(ms, pathPrefix, prefix, ms[i], x);
        AllMembers(sel, prefix, ms[i], x);
      }
    }
  }

  lemma MissedIsLost(ms: seq<Mount>, pathPrefix: string, prefix: string)
    requires MountsOk(ms) && Misses(ms, pathPrefix, prefix)
    ensures MatchingAll(Select(ms, pathPrefix), prefix) != MatchingAll(ms, prefix)
  {
    var h :| h in ms && h.path == pathPrefix + "/";
    var m :| m in ms && m.path != pathPrefix + "/" && HasPrefix(m.path, pathPrefix) && MatchingOn(m, prefix) != {};
    var x :| x in MatchingOn(m, prefix);
    HolderIs(ms, pathPrefix);
    var g := Holder(ms, pathPrefix).value;
    HeldApart(ms, h, g, pathPrefix);
    MembersApart(ms, h, m);
    hide MountsOk;
    MountsDisjoint(h, m, prefix);
    hide MatchingOn;
    AllMembers(ms, prefix, m, x);
    assert Select(ms, pathPrefix) == [h];
    InAll([h], prefix, x);
  }

  lemma NoRecords(store: Store, root: string, fieldPrefix: string)
    ensures Locations(store, root, fieldPrefix, {}) == {} && Elements([]) == {} && NoDuplicates([])
  {
  }

  lemma MissingRecord(store: Store, root: string, fieldPrefix: string, q: string)
    requires q !in store
    ensures Locations(store, root, fieldPrefix, {q}) == {}
  {
  }

  lemma WantedSelf(store: Store, root: string, q: string)
    requires StoreOk(store) && q in store && PathOk(root + q, true)
    ensures PathOk(root + q, false) && q in Wanted(store, root, root + q, "")
  {
    assert (root + q)[|root + q| - 1] == q[|q| - 1];
  }

  lemma LongestPath(store: Store) returns (bound: nat)
    ensures forall p :: p in store ==> |p| < bound
  {
    bound := LongestOf(store.Keys);
  }

  lemma LongestOf(ps: set<string>) returns (bound: nat)
    ensures forall p :: p in ps ==> |p| < bound
  {
    bound := 0;
    if p :| p in ps {
      bound := LongestOf(ps - {p});
      bound := bound + |p| + 1;
    }
  }

  /** It can miss one: with mounts at `secret/` and `secrets/`, the prefix `secret` does not find what
      is on the second. */
  lemma SecretMissesSecrets(record: string, field: string)
    requires record != "" && PathOk(record, false)
    ensures var ms := [Mount("secret/", false, map[]), Mount("secrets/", false, map[record := {field}])];
            Misses(ms, "secret", "secret") && MatchingAll(Select(ms, "secret"), "secret") == {}
  {
    var a, b := Mount("secret/", false, map[]), Mount("secrets/", false, map[record := {field}]);
    var ms := [a, b];
    var x := Location("secrets/" + record, field);
    UnderSecrets(record);
    assert x[..6] == "secret";
    assert x in MatchingOn(b, "secret");
    assert a in ms && b in ms && a.path == "secret" + "/" && b.path[..6] == "secret";
    hide PathOk;
    assert HasPrefix("secret" + "/", ms[0].path);
    assert Select(ms, "secret") == [a];
    assert MatchingAll([a][..0], "secret") == {} && MatchingOn(a, "secret") == {};
  }

  lemma UnderSecrets(record: string)
    requires record != "" && PathOk(record, false)
    ensures PathOk("secrets/" + record, false)
  {
    var s := "secrets/" + record;
    assert record[0] != '/';
    forall i | 0 <= i < |s|
      ensures !Refused(s[i])
    {
      assert i >= 8 ==> s[i] == record[i - 8];
      assert i < 8 ==> s[i] == "secrets/"[i];
    }
    forall i | 0 <= i < |s| - 1
      ensures !(s[i] == '/' && s[i + 1] == '/')
    {
      assert i >= 8 ==> s[i] == record[i - 8] && s[i + 1] == record[i - 7];
      assert i < 7 ==> s[i] == "secrets/"[i] && s[i] != '/';
    }
  }

  /* ----- a listed location is one Get accepts ----- */

  /** parseLocation. */
  function ParseLocation(s: string): Option<(string, string)> {
    var i := IndexOf(s, '#');
    if i == |s| || i == 0 || i + 1 == |s| || !PathOk(s[..i], false) then None else Some((s[..i], s[i + 1..]))
  }

  /** A location on a spellable path reads back as its path and field, unless the field has no name. */
  lemma LocationParses(path: string, field: string)
    requires path != "" && PathOk(path, false)
    ensures ParseLocation(Location(path, field)) == if field == "" then None else Some((path, field))
  {
    hide PathOk;
    NoHash(path);
    var s := Location(path, field);
    assert forall j :: 0 <= j < |path| ==> s[j] == path[j];
    IndexIs(s, '#', |path|);
    assert s[..|path|] == path && s[|path| + 1..] == field;
  }
}
