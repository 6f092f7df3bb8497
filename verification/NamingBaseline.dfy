/**
 The naming ratchet: a baseline freezes how often each (file, content digest) pair may
 occur, and a later scan may only report fewer. Line numbers identify nothing.

 The JSON layer is a library; a baseline document is its decoded value.
 */
module NamingBaseline {

  import opened Common

  datatype Key = Key(path: string, sha256: string)

  datatype Hit = Hit(path: string, line: nat, sha256: string)

  datatype Entry = Entry(path: string, sha256: string, count: nat)

  datatype Document = Malformed | Baseline(version: nat, entries: seq<Entry>)

  datatype Error = InvalidJson | UnsupportedVersion | InvalidOrDuplicateEntry

  datatype Result<+T> = Ok(value: T) | Err(error: Error)

  type Counts = map<Key, nat>

  function KeyOf(h: Hit): Key {
    Key(h.path, h.sha256)
  }

  function KeysOf(hits: seq<Hit>): (r: seq<Key>)
    ensures |r| == |hits| && forall i :: 0 <= i < |r| ==> r[i] == KeyOf(hits[i])
  {
    seq(|hits|, i requires 0 <= i < |hits| => KeyOf(hits[i]))
  }

  function CountOf(counts: Counts, k: Key): nat {
    if k in counts then counts[k] else 0
  }

  /** The keys of a scan, with multiplicities. */
  function Bag(hits: seq<Hit>): multiset<Key> {
    multiset(KeysOf(hits))
  }

  lemma BagAppend(hits: seq<Hit>, h: Hit)
    ensures Bag(hits + [h]) == Bag(hits) + multiset{KeyOf(h)}
  {
    assert KeysOf(hits + [h]) == KeysOf(hits) + [KeyOf(h)];
  }

  lemma BagMember(hits: seq<Hit>, i: nat)
    requires i < |hits|
    ensures KeyOf(hits[i]) in Bag(hits)
  {
    assert KeysOf(hits)[i] in KeysOf(hits);
  }

  lemma BagElement(hits: seq<Hit>, k: Key) returns (i: nat)
    requires k in Bag(hits)
    ensures i < |hits| && KeyOf(hits[i]) == k
  {
    i :| i < |hits| && KeysOf(hits)[i] == k;
  }

  /** How often a scan has a pair of path and digest. */
  function Times(hits: seq<Hit>, path: string, sha256: string): nat {
    if hits == [] then 0
    else
      var last := hits[|hits| - 1];
      Times(hits[..|hits| - 1], path, sha256) + (if last.path == path && last.sha256 == sha256 then 1 else 0)
  }

  lemma {:induction false} BagTimes(hits: seq<Hit>, path: string, sha256: string)
    ensures Bag(hits)[Key(path, sha256)] == Times(hits, path, sha256)
  {
    if hits != [] {
      var before, last := hits[..|hits| - 1], hits[|hits| - 1];
      BagTimes(before, path, sha256);
      assert hits == before + [last];
      BagAppend(before, last);
    }
  }

  /** A count map that stands for a multiset of keys, without zero entries. */
  ghost predicate Counting(counts: Counts, keys: multiset<Key>) {
    forall k :: (k in counts <==> k in keys) && CountOf(counts, k) == keys[k]
  }

  // ----------------------------------------------------------------- what is well formed

  function Parts(path: string): seq<string> {
    if path == "" then [""]
    else
      var rest := Parts(path[1..]);
      if path[0] == '/' then [""] + rest else [[path[0]] + rest[0]] + rest[1..]
  }

  predicate ValidPath(path: string) {
    && path != ""
    && (forall c | c in path :: c != '\\' && c != ':')
    && forall part | part in Parts(path) :: part != "" && part != "." && part != ".."
  }

  predicate ValidDigest(sha256: string) {
    |sha256| == 64 && forall c | c in sha256 :: '0' <= c <= '9' || 'a' <= c <= 'f'
  }

  predicate ValidKey(k: Key) {
    ValidPath(k.path) && ValidDigest(k.sha256)
  }

  /** Names joined by slashes. */
  function Joined(names: seq<string>): string {
    if names == [] then "" else if |names| == 1 then names[0] else names[0] + ("/" + Joined(names[1..]))
  }

  lemma {:induction false} PartsJoin(path: string)
    ensures Parts(path) != [] && Joined(Parts(path)) == path
    ensures forall i :: 0 <= i < |Parts(path)| ==> '/' !in Parts(path)[i]
  {
    if path != "" {
      var rest := Parts(path[1..]);
      PartsJoin(path[1..]);
      assert path == [path[0]] + path[1..];
      if path[0] == '/' {
        assert ([""] + rest)[1..] == rest;
        assert "" + ("/" + Joined(rest)) == path;
      } else {
        JoinedFirst(path[0], rest);
      }
    }
  }

  lemma JoinedFirst(c: char, names: seq<string>)
    requires names != []
    ensures Joined([[c] + names[0]] + names[1..]) == [c] + Joined(names)
  {
    var more := [[c] + names[0]] + names[1..];
    assert more[1..] == names[1..];
    if |names| > 1 {
      assert [c] + names[0] + ("/" + Joined(names[1..])) == [c] + (names[0] + ("/" + Joined(names[1..])));
    }
  }

  /** A text without a slash in front of others goes to the first part. */
  lemma {:induction false} PartsOfLead(name: string, rest: string)
    requires '/' !in name
    ensures Parts(name + rest) == [name + Parts(rest)[0]] + Parts(rest)[1..]
  {
    PartsJoin(rest);
    if name == "" {
      assert name + rest == rest && "" + Parts(rest)[0] == Parts(rest)[0];
      assert Parts(rest) == [Parts(rest)[0]] + Parts(rest)[1..];
    } else {
      assert (name + rest)[1..] == name[1..] + rest;
      PartsOfLead(name[1..], rest);
      assert [name[0]] + (name[1..] + Parts(rest)[0]) == name + Parts(rest)[0];
    }
  }

  lemma {:induction false} PartsOfJoined(names: seq<string>)
    requires names != [] && forall i :: 0 <= i < |names| ==> '/' !in names[i]
    ensures Parts(Joined(names)) == names
  {
    var name := names[0];
    if |names| == 1 {
      PartsOfLead(name, "");
      assert name + "" == name && [""][1..] == [];
      assert names == [name];
    } else {
      var rest := Joined(names[1..]);
      PartsOfJoined(names[1..]);
      assert ("/" + rest)[1..] == rest;
      assert Parts("/" + rest) == [""] + names[1..];
      PartsOfLead(name, "/" + rest);
      assert name + "" == name && ([""] + names[1..])[1..] == names[1..];
      assert names == [name] + names[1..];
    }
  }

  /** A name of a file or directory other than the two that stand for directories. */
  ghost predicate PlainName(name: string) {
    name != "" && name != "." && name != ".." && '/' !in name && '\\' !in name && ':' !in name
  }

  ghost predicate PlainNames(path: string, names: seq<string>) {
    names != [] && path == Joined(names) && forall i :: 0 <= i < |names| ==> PlainName(names[i])
  }

  lemma {:induction false} InJoined(names: seq<string>, c: char)
    requires names != [] && c != '/'
    ensures c in Joined(names) <==> exists i :: 0 <= i < |names| && c in names[i]
  {
    if |names| > 1 {
      InJoined(names[1..], c);
      var rest := Joined(names[1..]);
      assert c in Joined(names) <==> c in names[0] || c in rest;
      if c in rest {
        var i :| 0 <= i < |names[1..]| && c in names[1..][i];
        assert c in names[i + 1];
      }
      if i :| 0 <= i < |names| && c in names[i] && i > 0 {
        assert c in names[1..][i - 1];
      }
    }
  }

  /** A path is well formed exactly when it is plain names joined by slashes. */
  lemma PathIff(path: string)
    ensures ValidPath(path) <==> exists names :: PlainNames(path, names)
  {
    var parts := Parts(path);
    PartsJoin(path);
    InJoined(parts, '\\');
    InJoined(parts, ':');
    if names :| PlainNames(path, names) {
      PartsOfJoined(names);
      assert names[0] != "";
    }
    if ValidPath(path) {
      forall i | 0 <= i < |parts|
        ensures PlainName(parts[i])
      {
        assert parts[i] in parts;
      }
      assert PlainNames(path, parts);
    }
  }

  lemma DigestIff(sha256: string)
    ensures ValidDigest(sha256) <==> |sha256| == 64 && forall i :: 0 <= i < 64 ==> sha256[i] in "0123456789abcdef"
  {
    forall i | 0 <= i < |sha256|
      ensures sha256[i] in sha256
      ensures sha256[i] in "0123456789abcdef" <==> '0' <= sha256[i] <= '9' || 'a' <= sha256[i] <= 'f'
    {
      HexDigit(sha256[i]);
    }
  }

  lemma HexDigit(c: char)
    ensures c in "0123456789abcdef" <==> '0' <= c <= '9' || 'a' <= c <= 'f'
  {
    var digits := "0123456789abcdef";
    if '0' <= c <= '9' {
      assert digits[(c - '0') as int] == c;
    }
    if 'a' <= c <= 'f' {
      assert digits[10 + (c - 'a') as int] == c;
    }
  }

  function EntryKey(e: Entry): Key {
    Key(e.path, e.sha256)
  }

  /** Every entry is well formed, counts something, and names a pair of its own. */
  ghost predicate ValidEntries(entries: seq<Entry>) {
    && (forall i :: 0 <= i < |entries| ==> ValidKey(EntryKey(entries[i])) && entries[i].count > 0)
    && forall i, j :: 0 <= i < j < |entries| ==> EntryKey(entries[i]) != EntryKey(entries[j])
  }

  ghost predicate Lists(entries: seq<Entry>, counts: Counts) {
    && (forall i :: 0 <= i < |entries| ==> CountOf(counts, EntryKey(entries[i])) == entries[i].count)
    && (forall i :: 0 <= i < |entries| ==> EntryKey(entries[i]) in counts)
    && forall k :: k in counts ==> exists i :: 0 <= i < |entries| && EntryKey(entries[i]) == k
  }

  function Complaint(doc: Document): Error {
    if doc.Malformed? then InvalidJson
    else if doc.version != 1 then UnsupportedVersion
    else InvalidOrDuplicateEntry
  }

  method Parse(doc: Document) returns (r: Result<Counts>)
    ensures r.Ok? <==> doc.Baseline? && doc.version == 1 && ValidEntries(doc.entries)
    ensures r.Ok? ==> Lists(doc.entries, r.value)
    ensures r.Err? ==> r.error == Complaint(doc)
  {
    if doc.Malformed? {
      return Err(InvalidJson);
    }
    if doc.version != 1 {
      return Err(UnsupportedVersion);
    }
    var counts: Counts := map[];
    var entries := doc.entries;
    for i := 0 to |entries|
      invariant ValidEntries(entries[..i]) && Lists(entries[..i], counts)
    {
      var e := entries[i];
      if !ValidPath(e.path) || !ValidDigest(e.sha256) || e.count == 0 || EntryKey(e) in counts {
        Rejects(entries, i, counts);
        return Err(InvalidOrDuplicateEntry);
      }
      ListsMore(entries[..i], counts, e);
      assert entries[..i + 1] == entries[..i] + [e];
      counts := counts[EntryKey(e) := e.count];
    }
    assert entries[..|entries|] == entries;
    r := Ok(counts);
  }

  lemma Rejects(entries: seq<Entry>, i: nat, counts: Counts)
    requires i < |entries| && Lists(entries[..i], counts)
    requires !ValidKey(EntryKey(entries[i])) || entries[i].count == 0 || EntryKey(entries[i]) in counts
    ensures !ValidEntries(entries)
  {
    if EntryKey(entries[i]) in counts {
      var j :| 0 <= j < i && EntryKey(entries[..i][j]) == EntryKey(entries[i]);
      assert EntryKey(entries[j]) == EntryKey(entries[i]);
    }
  }

  lemma ListsMore(entries: seq<Entry>, counts: Counts, e: Entry)
    requires ValidEntries(entries) && Lists(entries, counts)
    requires ValidKey(EntryKey(e)) && e.count > 0 && EntryKey(e) !in counts
    ensures ValidEntries(entries + [e]) && Lists(entries + [e], counts[EntryKey(e) := e.count])
  {
    var more, counts' := entries + [e], counts[EntryKey(e) := e.count];
    assert more[|entries|] == e;
    forall k | k in counts'
      ensures exists i :: 0 <= i < |more| && EntryKey(more[i]) == k
    {
      if k != EntryKey(e) {
        var i :| 0 <= i < |entries| && EntryKey(entries[i]) == k;
        assert EntryKey(more[i]) == k;
      } else {
        assert EntryKey(more[|entries|]) == k;
      }
    }
  }

  // --------------------------------------------------------------------- the key order

  predicate KeyBefore(a: Key, b: Key) {
    LexLess(a.path, b.path) || (a.path == b.path && LexLess(a.sha256, b.sha256))
  }

  lemma KeyOrder(a: Key, b: Key, c: Key)
    ensures !KeyBefore(a, a)
    ensures a == b || KeyBefore(a, b) || KeyBefore(b, a)
    ensures KeyBefore(a, b) && KeyBefore(b, c) ==> KeyBefore(a, c)
  {
    LexOrder(a.path, b.path, c.path);
    LexOrder(a.sha256, b.sha256, c.sha256);
    LexOrder(b.path, b.path, c.path);
  }

  predicate Least(k: Key, keys: set<Key>) {
    k in keys && forall other :: other in keys && other != k ==> KeyBefore(k, other)
  }

  lemma LeastExists(keys: set<Key>) returns (k: Key)
    requires keys != {}
    ensures Least(k, keys)
    decreases |keys|
  {
    var x :| x in keys;
    var rest := keys - {x};
    assert forall other :: other in keys && other != x ==> other in rest;
    if rest == {} {
      return x;
    }
    var m := LeastExists(rest);
    KeyOrder(x, m, x);
    k := if KeyBefore(x, m) then x else m;
    forall other | other in keys && other != k
      ensures KeyBefore(k, other)
    {
      if other != x && other != m {
        KeyOrder(x, m, other);
      }
    }
  }

  lemma LeastBefore(k: Key, keys: set<Key>, other: Key)
    requires Least(k, keys) && other in keys && other != k
    ensures KeyBefore(k, other)
  {
  }

  ghost predicate Sorted(entries: seq<Entry>) {
    forall i, j :: 0 <= i < j < |entries| ==> KeyBefore(EntryKey(entries[i]), EntryKey(entries[j]))
  }

  // ------------------------------------------------------------------------- encoding

  method Counted(hits: seq<Hit>) returns (counts: Counts)
    ensures Counting(counts, Bag(hits))
  {
    counts := map[];
    for i := 0 to |hits|
      invariant Counting(counts, Bag(hits[..i]))
    {
      var k := KeyOf(hits[i]);
      BagAppend(hits[..i], hits[i]);
      assert hits[..i + 1] == hits[..i] + [hits[i]];
      counts := counts[k := CountOf(counts, k) + 1];
    }
    assert hits[..|hits|] == hits;
  }

  /** `encode`: count the keys, list them in key order, and re-check the result. */
  method Encode(hits: seq<Hit>) returns (r: Result<Document>)
    ensures r.Ok? <==> forall i :: 0 <= i < |hits| ==> ValidKey(KeyOf(hits[i]))
    ensures r.Ok? ==> Encodes(r.value, Bag(hits)) && Freezes(r.value.entries, hits)
  {
    var counts := Counted(hits);
    var entries := SortedEntries(counts);
    var doc := Baseline(1, entries);
    var check := Parse(doc);
    EncodedValid(hits, entries, counts);
    r := if check.Ok? then Ok(doc) else Err(check.error);
  }

  /** The document lists exactly the keys of the multiset, with multiplicities, in order. */
  ghost predicate Encodes(doc: Document, keys: multiset<Key>) {
    && doc.Baseline? && doc.version == 1
    && Sorted(doc.entries)
    && (forall i :: 0 <= i < |doc.entries| ==> doc.entries[i].count == keys[EntryKey(doc.entries[i])] > 0)
    && forall k :: k in keys ==> exists i :: 0 <= i < |doc.entries| && EntryKey(doc.entries[i]) == k
  }

  /** Entries in the order of their paths, and of their digests within one path. */
  ghost predicate InOrder(entries: seq<Entry>) {
    forall i, j :: 0 <= i < j < |entries| ==>
      || LexLess(entries[i].path, entries[j].path)
      || (entries[i].path == entries[j].path && LexLess(entries[i].sha256, entries[j].sha256))
  }

  /** The entries are the pairs of path and digest of a scan, each with how often it occurs. */
  ghost predicate Freezes(entries: seq<Entry>, hits: seq<Hit>) {
    && InOrder(entries)
    && forall path, sha256, count ::
        Entry(path, sha256, count) in entries <==> count == Times(hits, path, sha256) && count > 0
  }

  lemma EncodingFreezes(doc: Document, hits: seq<Hit>)
    requires Encodes(doc, Bag(hits))
    ensures Freezes(doc.entries, hits)
  {
    var entries := doc.entries;
    forall path, sha256, count
      ensures Entry(path, sha256, count) in entries <==> count == Times(hits, path, sha256) && count > 0
    {
      BagTimes(hits, path, sha256);
      if count == Times(hits, path, sha256) && count > 0 {
        assert Key(path, sha256) in Bag(hits);
        var i :| 0 <= i < |entries| && EntryKey(entries[i]) == Key(path, sha256);
        assert entries[i] == Entry(path, sha256, count);
      }
    }
  }

  method SortedEntries(counts: Counts) returns (entries: seq<Entry>)
    ensures Sorted(entries) && Lists(entries, counts)
  {
    entries := [];
    var left := counts.Keys;
    while left != {}
      invariant left <= counts.Keys
      invariant Sorted(entries)
      invariant forall i, k :: 0 <= i < |entries| && k in left ==> KeyBefore(EntryKey(entries[i]), k)
      invariant forall i :: 0 <= i < |entries| ==> EntryKey(entries[i]) in counts && counts[EntryKey(entries[i])] == entries[i].count
      invariant forall k :: k in counts && k !in left ==> exists i :: 0 <= i < |entries| && EntryKey(entries[i]) == k
      decreases |left|
    {
      ghost var least := LeastExists(left);
      var k :| k in left && Least(k, left);
      var before := entries;
      ghost var all := left;
      entries := entries + [Entry(k.path, k.sha256, counts[k])];
      left := left - {k};
      assert EntryKey(entries[|before|]) == k;
      forall i, other | 0 <= i < |entries| && other in left
        ensures KeyBefore(EntryKey(entries[i]), other)
      {
        assert other in all && other != k;
        if i < |before| {
          assert KeyBefore(EntryKey(before[i]), other);
        } else {
          LeastBefore(k, all, other);
          assert EntryKey(entries[i]) == k;
        }
      }
      forall other | other in counts && other !in left
        ensures exists i :: 0 <= i < |entries| && EntryKey(entries[i]) == other
      {
        if other != k {
          var i :| 0 <= i < |before| && EntryKey(before[i]) == other;
          assert EntryKey(entries[i]) == other;
        }
      }
    }
  }

  lemma EncodedValid(hits: seq<Hit>, entries: seq<Entry>, counts: Counts)
    requires Counting(counts, Bag(hits)) && Sorted(entries) && Lists(entries, counts)
    ensures ValidEntries(entries) <==> forall i :: 0 <= i < |hits| ==> ValidKey(KeyOf(hits[i]))
    ensures Encodes(Baseline(1, entries), Bag(hits)) && Freezes(entries, hits)
  {
    assert Encodes(Baseline(1, entries), Bag(hits));
    EncodingValidIff(Baseline(1, entries), hits);
    EncodingFreezes(Baseline(1, entries), hits);
  }

  lemma EncodingValidIff(doc: Document, hits: seq<Hit>)
    requires Encodes(doc, Bag(hits))
    ensures ValidEntries(doc.entries) <==> forall i :: 0 <= i < |hits| ==> ValidKey(KeyOf(hits[i]))
  {
    var entries := doc.entries;
    forall i, j | 0 <= i < j < |entries|
      ensures EntryKey(entries[i]) != EntryKey(entries[j])
    {
      KeyOrder(EntryKey(entries[i]), EntryKey(entries[j]), EntryKey(entries[i]));
    }
    if ValidEntries(entries) {
      forall i | 0 <= i < |hits|
        ensures ValidKey(KeyOf(hits[i]))
      {
        BagMember(hits, i);
        var j :| 0 <= j < |entries| && EntryKey(entries[j]) == KeyOf(hits[i]);
      }
    }
    if forall i :: 0 <= i < |hits| ==> ValidKey(KeyOf(hits[i])) {
      forall j | 0 <= j < |entries|
        ensures ValidKey(EntryKey(entries[j]))
      {
        var i := BagElement(hits, EntryKey(entries[j]));
      }
    }
  }

  lemma StrictlyAbove(a: seq<Entry>, b: seq<Entry>, keys: multiset<Key>, n: nat)
    requires Encodes(Baseline(1, a), keys) && Encodes(Baseline(1, b), keys)
    requires n < |a| && n <= |b| && a[..n] == b[..n]
    ensures n < |b| && !KeyBefore(EntryKey(a[n]), EntryKey(b[n]))
  {
    var k := EntryKey(a[n]);
    var j :| 0 <= j < |b| && EntryKey(b[j]) == k;
    if j < n {
      assert a[j] == a[..n][j] == b[..n][j] == b[j];
      assert KeyBefore(EntryKey(a[j]), EntryKey(a[n]));
      KeyOrder(k, k, k);
    } else {
      KeyOrder(k, k, k);
      KeyOrder(k, EntryKey(b[n]), k);
    }
  }

  lemma SameEntry(a: seq<Entry>, b: seq<Entry>, keys: multiset<Key>, n: nat)
    requires Encodes(Baseline(1, a), keys) && Encodes(Baseline(1, b), keys)
    requires n < |a| && n <= |b| && a[..n] == b[..n]
    ensures n < |b| && a[n] == b[n]
  {
    StrictlyAbove(a, b, keys, n);
    StrictlyAbove(b, a, keys, n);
    KeyOrder(EntryKey(a[n]), EntryKey(b[n]), EntryKey(a[n]));
  }

  lemma PrefixGrows(a: seq<Entry>, b: seq<Entry>, n: nat)
    requires n < |a| && n < |b| && a[..n] == b[..n] && a[n] == b[n]
    ensures a[..n + 1] == b[..n + 1]
  {
    assert a[..n + 1] == a[..n] + [a[n]];
    assert b[..n + 1] == b[..n] + [b[n]];
  }

  lemma {:induction false} SamePrefix(a: seq<Entry>, b: seq<Entry>, keys: multiset<Key>, n: nat)
    requires Encodes(Baseline(1, a), keys) && Encodes(Baseline(1, b), keys)
    requires n <= |a|
    ensures n <= |b| && a[..n] == b[..n]
  {
    if n > 0 {
      SamePrefix(a, b, keys, n - 1);
      SameEntry(a, b, keys, n - 1);
      PrefixGrows(a, b, n - 1);
    }
  }

  /** Encodings are stable: the document is determined by the multiset of keys, and determines it. */
  lemma EncodingStable(a: Document, b: Document, m: multiset<Key>, n: multiset<Key>)
    requires Encodes(a, m) && Encodes(b, n)
    ensures a == b <==> m == n
  {
    if m == n {
      SamePrefix(a.entries, b.entries, m, |a.entries|);
      SamePrefix(b.entries, a.entries, m, |b.entries|);
      assert a.entries[..|a.entries|] == a.entries && b.entries[..|b.entries|] == b.entries;
    }
    EncodingDetermines(a, b, m, n);
  }

  lemma EncodingDetermines(a: Document, b: Document, m: multiset<Key>, n: multiset<Key>)
    requires Encodes(a, m) && Encodes(b, n)
    ensures a == b ==> m == n
  {
    if a == b {
      assert m == n by {
        forall k
          ensures m[k] == n[k]
        {
          CountEncoded(a, m, k);
          CountEncoded(a, n, k);
        }
      }
    }
  }

  function Listed(entries: seq<Entry>, k: Key): nat {
    if entries == [] then 0
    else if EntryKey(entries[0]) == k then entries[0].count
    else Listed(entries[1..], k)
  }

  lemma {:induction false} ListedIs(entries: seq<Entry>, k: Key, i: nat)
    requires i < |entries| && EntryKey(entries[i]) == k
    requires forall j :: 0 <= j < i ==> EntryKey(entries[j]) != k
    ensures Listed(entries, k) == entries[i].count
  {
    if i > 0 {
      ListedIs(entries[1..], k, i - 1);
    }
  }

  lemma {:induction false} ListedNot(entries: seq<Entry>, k: Key)
    requires forall j :: 0 <= j < |entries| ==> EntryKey(entries[j]) != k
    ensures Listed(entries, k) == 0
  {
    if entries != [] {
      ListedNot(entries[1..], k);
    }
  }

  lemma CountEncoded(a: Document, m: multiset<Key>, k: Key)
    requires Encodes(a, m)
    ensures m[k] == Listed(a.entries, k)
  {
    if k in m {
      var i :| 0 <= i < |a.entries| && EntryKey(a.entries[i]) == k;
      forall j | 0 <= j < i
        ensures EntryKey(a.entries[j]) != k
      {
        KeyOrder(EntryKey(a.entries[j]), k, k);
      }
      ListedIs(a.entries, k, i);
    } else {
      ListedNot(a.entries, k);
    }
  }

  // ---------------------------------------------------------------------- the ratchet

  /**
   Reference definition: a hit is rejected when, counting from the start of the scan, it is
   one occurrence of its key too many.
   */
  function Beyond(allowed: Counts, hits: seq<Hit>): seq<Hit> {
    if hits == [] then [] else
    var before, last := hits[..|hits| - 1], hits[|hits| - 1];
    Beyond(allowed, before)
    + (if Bag(before)[KeyOf(last)] + 1 > CountOf(allowed, KeyOf(last)) then [last] else [])
  }

  /** What the decremented map still allows after some keys have been seen. */
  ghost predicate Remaining(left: Counts, allowed: Counts, seen: multiset<Key>) {
    forall k :: CountOf(left, k) == if CountOf(allowed, k) > seen[k] then CountOf(allowed, k) - seen[k] else 0
  }

  method Violations(doc: Document, hits: seq<Hit>) returns (r: Result<seq<Hit>>, ghost allowed: Counts)
    ensures r.Ok? <==> doc.Baseline? && doc.version == 1 && ValidEntries(doc.entries)
    ensures r.Ok? ==> Lists(doc.entries, allowed) && r.value == Beyond(allowed, hits)
    ensures r.Err? ==> r.error == Complaint(doc)
  {
    var parsed := Parse(doc);
    allowed := map[];
    if parsed.Err? {
      return Err(parsed.error), allowed;
    }
    allowed := parsed.value;
    var rejected := Filter(parsed.value, hits);
    r := Ok(rejected);
  }

  /** The filter that spends the allowance as it goes. */
  method Filter(allowed: Counts, hits: seq<Hit>) returns (rejected: seq<Hit>)
    ensures rejected == Beyond(allowed, hits)
  {
    var left := allowed;
    rejected := [];
    for i := 0 to |hits|
      invariant Remaining(left, allowed, Bag(hits[..i]))
      invariant rejected == Beyond(allowed, hits[..i])
    {
      var k := KeyOf(hits[i]);
      BeyondStep(allowed, hits, i);
      RemainingStep(left, allowed, Bag(hits[..i]), k);
      if k in left && left[k] > 0 {
        left := left[k := left[k] - 1];
      } else {
        rejected := rejected + [hits[i]];
      }
    }
    assert hits[..|hits|] == hits;
  }

  lemma RemainingStep(left: Counts, allowed: Counts, seen: multiset<Key>, k: Key)
    requires Remaining(left, allowed, seen)
    ensures CountOf(left, k) > 0 <==> seen[k] + 1 <= CountOf(allowed, k)
    ensures Remaining(if CountOf(left, k) > 0 then left[k := left[k] - 1] else left, allowed, seen + multiset{k})
  {
  }

  lemma BeyondStep(allowed: Counts, hits: seq<Hit>, i: nat)
    requires i < |hits|
    ensures var k, before := KeyOf(hits[i]), hits[..i];
      && Bag(hits[..i + 1]) == Bag(before) + multiset{k}
      && Beyond(allowed, hits[..i + 1])
         == Beyond(allowed, before) + (if Bag(before)[k] + 1 > CountOf(allowed, k) then [hits[i]] else [])
  {
    var more := hits[..i + 1];
    assert more[..i] == hits[..i] && more == hits[..i] + [hits[i]];
    BagAppend(hits[..i], hits[i]);
  }

  /** The rejected hits come in scan order, with their lines, and nothing else comes with them. */
  ghost predicate Subsequence(a: seq<Hit>, b: seq<Hit>) {
    if a == [] then true
    else b != [] && (if a[|a| - 1] == b[|b| - 1] then Subsequence(a[..|a| - 1], b[..|b| - 1]) else Subsequence(a, b[..|b| - 1]))
  }

  lemma {:induction false} BeyondIsSubsequence(allowed: Counts, hits: seq<Hit>)
    ensures Subsequence(Beyond(allowed, hits), hits)
  {
    if hits != [] {
      var before, last := hits[..|hits| - 1], hits[|hits| - 1];
      BeyondIsSubsequence(allowed, before);
      var r := Beyond(allowed, before);
      assert (r + [last])[..|r|] == r;
      if Beyond(allowed, hits) == r && r != [] && r[|r| - 1] == last {
        SubsequenceDropLast(r, before);
      }
    }
  }

  lemma {:induction false} SubsequenceDropLast(a: seq<Hit>, b: seq<Hit>)
    requires a != [] && Subsequence(a, b)
    ensures Subsequence(a[..|a| - 1], b)
    decreases |b|
  {
    var front, before := a[..|a| - 1], b[..|b| - 1];
    if a[|a| - 1] == b[|b| - 1] {
      if front != [] && front[|front| - 1] == b[|b| - 1] {
        SubsequenceDropLast(front, before);
      }
    } else {
      SubsequenceDropLast(a, before);
      if front != [] && front[|front| - 1] == b[|b| - 1] {
        SubsequenceDropLast(front, before);
      }
    }
  }

  lemma DifferenceStep(seen: multiset<Key>, frozen: multiset<Key>, k: Key)
    ensures (seen + multiset{k}) - frozen
      == if seen[k] + 1 > frozen[k] then (seen - frozen) + multiset{k} else seen - frozen
  {
  }

  lemma {:induction false} BeyondIsDifference(allowed: Counts, frozen: multiset<Key>, hits: seq<Hit>)
    requires Counting(allowed, frozen)
    ensures Bag(Beyond(allowed, hits)) == Bag(hits) - frozen
  {
    if hits != [] {
      var before, last := hits[..|hits| - 1], hits[|hits| - 1];
      var k, r := KeyOf(last), Beyond(allowed, before);
      BeyondIsDifference(allowed, frozen, before);
      assert hits == before + [last];
      BagAppend(before, last);
      DifferenceStep(Bag(before), frozen, k);
      assert CountOf(allowed, k) == frozen[k];
      if Bag(before)[k] + 1 > frozen[k] {
        assert Beyond(allowed, hits) == r + [last];
        BagAppend(r, last);
      } else {
        assert Beyond(allowed, hits) == r + [] == r;
      }
    }
  }

  /** A parsed encoding counts the keys that were encoded. */
  lemma ParseOfEncoding(doc: Document, keys: multiset<Key>, counts: Counts)
    requires Encodes(doc, keys) && Lists(doc.entries, counts)
    ensures Counting(counts, keys)
  {
    forall k
      ensures (k in counts <==> k in keys) && CountOf(counts, k) == keys[k]
    {
      if k in counts || k in keys {
        var i :| 0 <= i < |doc.entries| && EntryKey(doc.entries[i]) == k;
      }
    }
  }

  lemma NothingRejectedIff(rejected: seq<Hit>, hits: multiset<Key>, frozen: multiset<Key>)
    requires Bag(rejected) == hits - frozen
    ensures rejected == [] <==> hits <= frozen
  {
    if rejected == [] {
      forall k
        ensures hits[k] <= frozen[k]
      {
        assert (hits - frozen)[k] == Bag([])[k] == 0;
      }
    } else {
      BagMember(rejected, 0);
      assert (hits - frozen)[KeyOf(rejected[0])] > 0;
    }
  }

  /** No pair of path and digest occurs more often than it did. */
  ghost predicate NoneAdded(hits: seq<Hit>, frozen: seq<Hit>) {
    forall path, sha256 :: Times(hits, path, sha256) <= Times(frozen, path, sha256)
  }

  lemma NoneAddedIff(hits: seq<Hit>, frozen: seq<Hit>)
    ensures Bag(hits) <= Bag(frozen) <==> NoneAdded(hits, frozen)
  {
    forall path, sha256
      ensures Bag(hits)[Key(path, sha256)] == Times(hits, path, sha256)
      ensures Bag(frozen)[Key(path, sha256)] == Times(frozen, path, sha256)
    {
      BagTimes(hits, path, sha256);
      BagTimes(frozen, path, sha256);
    }
    if NoneAdded(hits, frozen) {
      forall k
        ensures Bag(hits)[k] <= Bag(frozen)[k]
      {
        assert k == Key(k.path, k.sha256);
        assert Times(hits, k.path, k.sha256) <= Times(frozen, k.path, k.sha256);
      }
    }
  }

  /**
   Main result: against a baseline frozen from earlier hits, the keys rejected are exactly
   the multiset difference, so the ratchet passes exactly when nothing was added. Moving or
   dropping hits never fails it.
   */
  method Ratchet(frozen: seq<Hit>, hits: seq<Hit>) returns (r: Result<seq<Hit>>)
    ensures r.Ok? <==> forall i :: 0 <= i < |frozen| ==> ValidKey(KeyOf(frozen[i]))
    ensures r.Ok? ==> Subsequence(r.value, hits) && Bag(r.value) == Bag(hits) - Bag(frozen)
    ensures r.Ok? ==> (r.value == [] <==> Bag(hits) <= Bag(frozen))
    ensures r.Ok? ==> (r.value == [] <==> NoneAdded(hits, frozen))
  {
    var doc := Encode(frozen);
    if doc.Err? {
      return Err(doc.error);
    }
    EncodingValidIff(doc.value, frozen);
    ghost var allowed;
    r, allowed := Violations(doc.value, hits);
    ParseOfEncoding(doc.value, Bag(frozen), allowed);
    BeyondIsSubsequence(allowed, hits);
    BeyondIsDifference(allowed, Bag(frozen), hits);
    NothingRejectedIff(r.value, Bag(hits), Bag(frozen));
    NoneAddedIff(hits, frozen);
  }
}
