/**
 The revision store (internal/revision/store.go): revisions are directories holding a configuration and its
 metadata, and a `current` link. Every file operation may fail; a ghost record keeps every state the store's
 directory has been in.
 */
module Revision {
  import opened Text

  datatype Metadata = Metadata(id: string, timestamp: nat, comment: string)

  // A file may be missing, torn by a write that failed, or whole. A torn metadata file does not parse.
  datatype ConfigFile = NoConfig | TornConfig(bytes: string) | ConfigIs(bytes: string)
  datatype MetaFile = NoMeta | TornMeta | MetaIs(meta: Metadata)

  datatype Entry = Entry(config: ConfigFile, meta: MetaFile)

  datatype Disk = Disk(dirs: map<string, Entry>, current: Option<string>)

  /* ---------- Revision ids ---------- */

  // 20060102T150405Z
  predicate IsStamp(s: string) {
    |s| == 16 && AllDigits(s[..8]) && s[8] == 'T' && AllDigits(s[9..15]) && s[15] == 'Z'
  }

  // The pattern of validRevisionID.
  predicate ValidId(s: string) {
    || IsStamp(s)
    || (|s| == 19 && IsStamp(s[..16]) && s[16] == '-' && AllDigits(s[17..]))
  }

  // `%02d`
  function TwoDigits(n: nat): string {
    if n < 10 then "0" + Decimal(n) else Decimal(n)
  }

  // The ids Save tries, in order.
  function Candidate(stamp: string, i: nat): string {
    if i == 0 then stamp else stamp + "-" + TwoDigits(i)
  }

  lemma {:induction false} DecimalLength(n: nat)
    ensures |Decimal(n)| == 1 <==> n < 10
    ensures |Decimal(n)| <= 2 <==> n < 100
  {
    if n >= 10 {
      DecimalLength(n / 10);
    }
  }

  lemma TwoDigitsValue(n: nat)
    ensures AllDigits(TwoDigits(n)) && Value(TwoDigits(n)) == n
    ensures |TwoDigits(n)| == 2 <==> n < 100
    ensures |TwoDigits(n)| >= 2
  {
    ValueOfDecimal(n);
    DecimalLength(n);
    if n < 10 {
      var s := TwoDigits(n);
      assert s[..1] == "0" && Value("0") == 0;
    }
  }

  lemma CandidatesDiffer(stamp: string, i: nat, j: nat)
    requires Candidate(stamp, i) == Candidate(stamp, j)
    ensures i == j
  {
    var n := |stamp|;
    assert |Candidate(stamp, i)| == n <==> i == 0;
    assert |Candidate(stamp, j)| == n <==> j == 0;
    if i > 0 && j > 0 {
      assert Candidate(stamp, i)[n + 1..] == TwoDigits(i);
      assert Candidate(stamp, j)[n + 1..] == TwoDigits(j);
      TwoDigitsValue(i);
      TwoDigitsValue(j);
    }
  }

  // The id pattern accepts exactly the first hundred candidates of a second.
  lemma PatternAcceptsFirstHundred(stamp: string, i: nat)
    requires IsStamp(stamp)
    ensures ValidId(Candidate(stamp, i)) <==> i <= 99
  {
    TwoDigitsValue(i);
    if i > 0 {
      var id := Candidate(stamp, i);
      assert |id| == 17 + |TwoDigits(i)|;
      assert id[..16] == stamp && id[16] == '-' && id[17..] == TwoDigits(i);
    }
  }

  // What the pattern accepts: a stamp, or a stamp with a dash and a number below one hundred in two digits.
  lemma PatternMeaning(id: string)
    ensures ValidId(id) <==> IsStamp(id) || exists stamp, n :: n < 100 && StampAndNumber(id, stamp, n)
  {
    if ValidId(id) && !IsStamp(id) {
      TwoDigitsOfValue(id[17..]);
      assert id == id[..16] + "-" + id[17..];
      assert StampAndNumber(id, id[..16], Value(id[17..]));
    }
    if stamp, n :| n < 100 && StampAndNumber(id, stamp, n) {
      TwoDigitsValue(n);
      assert id[..16] == stamp && id[17..] == TwoDigits(n);
    }
  }

  ghost predicate StampAndNumber(id: string, stamp: string, n: nat) {
    IsStamp(stamp) && id == stamp + "-" + TwoDigits(n)
  }

  lemma TwoDigitsOfValue(s: string)
    requires |s| == 2 && AllDigits(s)
    ensures Value(s) < 100 && TwoDigits(Value(s)) == s
  {
    assert s[..1] == [s[0]] && Value(s[..0]) == 0 && s[..1][..0] == [];
    assert Value(s[..1]) == s[0] as int - '0' as int;
    assert Value(s) == 10 * Value(s[..1]) + (s[1] as int - '0' as int);
    if Value(s) >= 10 {
      DecimalOfValue(s);
    } else {
      assert s[0] == '0' && Decimal(Value(s)) == [s[1]];
    }
  }

  ghost predicate AllTaken(ids: set<string>, stamp: string, n: nat) {
    forall j :: 0 <= j < n ==> Candidate(stamp, j) in ids
  }

  // Pairwise distinct candidates cannot all be taken in a finite store.
  lemma {:induction false} Pigeonhole(ids: set<string>, stamp: string, n: nat)
    requires AllTaken(ids, stamp, n)
    ensures n <= |ids|
  {
    if n > 0 {
      var last := Candidate(stamp, n - 1);
      var others := ids - {last};
      forall j | 0 <= j < n - 1
        ensures Candidate(stamp, j) in others
      {
        if Candidate(stamp, j) == last {
          CandidatesDiffer(stamp, j, n - 1);
        }
      }
      Pigeonhole(others, stamp, n - 1);
    }
  }

  ghost predicate FirstFree(ids: set<string>, stamp: string, i: nat) {
    AllTaken(ids, stamp, i) && Candidate(stamp, i) !in ids
  }

  /* ---------- Good stores ---------- */

  // Metadata is written last, under the name of its directory.
  ghost predicate Valid(d: Disk) {
    forall id :: id in d.dirs && d.dirs[id].meta.MetaIs? ==>
      d.dirs[id].config.ConfigIs? && d.dirs[id].meta.meta.id == id
  }

  ghost predicate FullyWritten(d: Disk, id: string) {
    id in d.dirs && d.dirs[id].config.ConfigIs? && d.dirs[id].meta.MetaIs?
  }

  // `current` names nothing or a fully written revision.
  ghost predicate CurrentIsWhole(d: Disk) {
    d.current.Some? ==> FullyWritten(d, d.current.value)
  }

  // Nothing that was there has changed.
  ghost predicate Extends(before: Disk, after: Disk) {
    forall id :: id in before.dirs ==> id in after.dirs && after.dirs[id] == before.dirs[id]
  }

  // What any state during a Save keeps.
  ghost predicate Safe(before: Disk, d: Disk) {
    && Extends(before, d)
    && (Valid(before) ==> Valid(d))
    && (CurrentIsWhole(before) ==> CurrentIsWhole(d))
  }

  // Every state recorded after the first n keeps it.
  ghost predicate SafeSince(before: Disk, states: seq<Disk>, n: nat) {
    forall k :: n <= k < |states| ==> Safe(before, states[k])
  }

  lemma NewEntryIsSafe(before: Disk, id: string, entry: Entry)
    requires id !in before.dirs
    requires entry.meta.MetaIs? ==> entry.config.ConfigIs? && entry.meta.meta.id == id
    ensures Safe(before, before.(dirs := before.dirs[id := entry]))
  {
  }

  // What Get reads.
  function Retrieved(d: Disk, id: string): Option<(string, Metadata)> {
    if ValidId(id) && id in d.dirs && d.dirs[id].meta.MetaIs? then
      match d.dirs[id].config
      case NoConfig => None
      case TornConfig(bytes) => Some((bytes, d.dirs[id].meta.meta))
      case ConfigIs(bytes) => Some((bytes, d.dirs[id].meta.meta))
    else None
  }

  /* ---------- Listing ---------- */

  ghost predicate Listed(d: Disk, m: Metadata) {
    exists id :: id in d.dirs && d.dirs[id].meta == MetaIs(m)
  }

  ghost predicate NewestFirst(ms: seq<Metadata>) {
    forall i, j :: 0 <= i < j < |ms| ==> ms[i].timestamp >= ms[j].timestamp
  }

  // What the listing loop has gathered when `rest` is still to be read: entries of the store, and, if every read
  // worked, all of them.
  ghost predicate Gathered(d: Disk, rest: set<string>, found: seq<Metadata>) {
    forall m :: m in found ==> exists id :: id in d.dirs && id !in rest && d.dirs[id].meta == MetaIs(m)
  }

  ghost predicate GatheredAll(d: Disk, rest: set<string>, found: seq<Metadata>) {
    forall id :: id in d.dirs && id !in rest && d.dirs[id].meta.MetaIs? ==> d.dirs[id].meta.meta in found
  }

  lemma GatheredSorted(d: Disk, found: seq<Metadata>, sorted: seq<Metadata>)
    requires Gathered(d, {}, found) && multiset(sorted) == multiset(found)
    ensures forall m :: m in sorted ==> Listed(d, m)
    ensures GatheredAll(d, {}, found) ==> forall m :: Listed(d, m) ==> m in sorted
  {
    forall m
      ensures m in sorted <==> m in found
    {
      assert m in multiset(sorted) <==> m in multiset(found);
    }
  }

  ghost predicate DistinctIds(ms: seq<Metadata>) {
    forall i, j :: 0 <= i < j < |ms| ==> ms[i].id != ms[j].id
  }

  // The id that follows the first entry named `current`; "" when there is none.
  function NextAfter(ms: seq<Metadata>, current: string): string {
    if |ms| < 2 then "" else if ms[0].id == current then ms[1].id else NextAfter(ms[1..], current)
  }

  // For a listing of distinct ids: the entry after `current`, wherever that is; none when `current` is the last entry
  // or is not listed.
  lemma {:induction false} NextAfterMeaning(ms: seq<Metadata>, current: string)
    requires DistinctIds(ms)
    ensures forall i :: 0 <= i < |ms| - 1 && ms[i].id == current ==> NextAfter(ms, current) == ms[i + 1].id
    ensures (forall i :: 0 <= i < |ms| - 1 ==> ms[i].id != current) ==> NextAfter(ms, current) == ""
  {
    if |ms| >= 2 && ms[0].id != current {
      NextAfterMeaning(ms[1..], current);
      forall i | 0 <= i < |ms| - 1 && ms[i].id == current
        ensures NextAfter(ms, current) == ms[i + 1].id
      {
        assert ms[1..][i - 1].id == current && ms[1..][i] == ms[i + 1];
      }
    }
  }

  method Insert(sorted: seq<Metadata>, m: Metadata) returns (out: seq<Metadata>)
    requires NewestFirst(sorted)
    ensures NewestFirst(out)
    ensures multiset(out) == multiset(sorted) + multiset{m}
    ensures DistinctIds(sorted + [m]) ==> DistinctIds(out)
  {
    var k := 0;
    while k < |sorted| && sorted[k].timestamp > m.timestamp
      invariant k <= |sorted|
      invariant forall i :: 0 <= i < k ==> sorted[i].timestamp > m.timestamp
    {
      k := k + 1;
    }
    out := sorted[..k] + [m] + sorted[k..];
    InsertedAt(sorted, m, k);
  }

  lemma InsertedAt(ms: seq<Metadata>, m: Metadata, k: nat)
    requires k <= |ms|
    ensures multiset(ms[..k] + [m] + ms[k..]) == multiset(ms) + multiset{m}
    ensures DistinctIds(ms + [m]) ==> DistinctIds(ms[..k] + [m] + ms[k..])
  {
    assert ms == ms[..k] + ms[k..];
    var out := ms[..k] + [m] + ms[k..];
    if DistinctIds(ms + [m]) {
      forall i, j | 0 <= i < j < |out|
        ensures out[i].id != out[j].id
      {
        var a := if i < k then i else if i == k then |ms| else i - 1;
        var b := if j < k then j else if j == k then |ms| else j - 1;
        assert (ms + [m])[a] == out[i] && (ms + [m])[b] == out[j];
      }
    }
  }

  method SortNewestFirst(ms: seq<Metadata>) returns (out: seq<Metadata>)
    ensures NewestFirst(out) && multiset(out) == multiset(ms)
    ensures DistinctIds(ms) ==> DistinctIds(out)
  {
    out := [];
    for i := 0 to |ms|
      invariant NewestFirst(out) && multiset(out) == multiset(ms[..i])
      invariant DistinctIds(ms) ==> DistinctIds(out)
    {
      assert ms[..i + 1] == ms[..i] + [ms[i]];
      if DistinctIds(ms) {
        forall x | x in out
          ensures x.id != ms[i].id
        {
          assert x in multiset(ms[..i]);
        }
      }
      out := Insert(out, ms[i]);
    }
    assert ms[..|ms|] == ms;
  }

  /* ---------- The store ---------- */

  class Store {
    var disk: Disk
    // Every state the directory has been in, and how many file operations have failed.
    ghost var past: seq<Disk>
    ghost var faults: nat

    constructor (initial: Disk)
      ensures disk == initial && past == [initial] && faults == 0
    {
      disk := initial;
      past := [initial];
      faults := 0;
    }

    // One file operation that reaches the disk.
    method Commit(d: Disk)
      modifies this`disk, this`past
      ensures disk == d && past == old(past) + [d]
    {
      disk := d;
      past := past + [d];
    }

    // A file operation that may fail without an effect.
    method Attempt() returns (ok: bool)
      modifies this`faults
      ensures faults >= old(faults)
      ensures ok <==> faults == old(faults)
    {
      ok := *;
      if !ok {
        faults := faults + 1;
      }
    }

    // The id loop of Save. It ends because the store is finite.
    method FreshId(stamp: string) returns (id: string, ghost index: nat)
      ensures id !in disk.dirs
      ensures id == Candidate(stamp, index) && FirstFree(disk.dirs.Keys, stamp, index)
    {
      id := stamp;
      index := 0;
      var i := 1;
      while id in disk.dirs
        invariant i == index + 1 && id == Candidate(stamp, index)
        invariant AllTaken(disk.dirs.Keys, stamp, index)
        decreases |disk.dirs.Keys| + 1 - i
      {
        Pigeonhole(disk.dirs.Keys, stamp, index + 1);
        id := stamp + "-" + TwoDigits(i);
        i := i + 1;
        index := index + 1;
      }
    }

    // One more state of a new revision's directory.
    method PutEntry(id: string, entry: Entry, ghost before: Disk, ghost start: nat)
      requires id !in before.dirs && SafeSince(before, past, start)
      requires disk.dirs == before.dirs || (id in disk.dirs && disk.dirs == before.dirs[id := disk.dirs[id]])
      requires disk.current == before.current
      requires entry.meta.MetaIs? ==> entry.config.ConfigIs? && entry.meta.meta.id == id
      modifies this`disk, this`past
      ensures disk == before.(dirs := before.dirs[id := entry])
      ensures old(past) <= past && SafeSince(before, past, start) && Safe(before, disk)
    {
      NewEntryIsSafe(before, id, entry);
      assert disk.dirs[id := entry] == before.dirs[id := entry];
      Commit(disk.(dirs := disk.dirs[id := entry]));
    }

    // The directory of a revision and its two files, in this order; every write passes through a torn file.
    method WriteRevision(id: string, content: string, meta: Metadata) returns (ok: bool)
      requires id !in disk.dirs && meta.id == id
      modifies this
      ensures faults >= old(faults)
      ensures ok <==> faults == old(faults)
      ensures old(past) <= past && SafeSince(old(disk), past, |old(past)|)
      ensures Safe(old(disk), disk)
      ensures disk.current == old(disk).current
      ensures disk.dirs.Keys <= old(disk).dirs.Keys + {id}
      ensures ok ==> disk.dirs == old(disk).dirs[id := Entry(ConfigIs(content), MetaIs(meta))]
    {
      ghost var before, start := disk, |past|;
      ok := Attempt();
      if !ok {
        return;
      }
      PutEntry(id, Entry(NoConfig, NoMeta), before, start);
      var part: string := *;
      PutEntry(id, Entry(TornConfig(part), NoMeta), before, start);
      ok := Attempt();
      if !ok {
        return;
      }
      PutEntry(id, Entry(ConfigIs(content), NoMeta), before, start);
      PutEntry(id, Entry(ConfigIs(content), TornMeta), before, start);
      ok := Attempt();
      if !ok {
        return;
      }
      PutEntry(id, Entry(ConfigIs(content), MetaIs(meta)), before, start);
    }

    // Replaces the link; removing the old one may fail, and a link that is there cannot be made.
    method PointCurrentAt(id: string) returns (ok: bool)
      requires FullyWritten(disk, id)
      modifies this
      ensures faults >= old(faults)
      ensures ok ==> disk == old(disk).(current := Some(id))
      ensures !ok ==> disk == old(disk) || disk == old(disk).(current := None)
      ensures faults == old(faults) ==> ok
      ensures old(past) <= past && SafeSince(old(disk), past, |old(past)|)
    {
      var removed := Attempt();
      if removed {
        Commit(disk.(current := None));
      }
      ok := Attempt();
      if !ok || disk.current.Some? {
        return false;
      }
      Commit(disk.(current := Some(id)));
    }

    /**
     Save. The new revision takes the first free id of its second and becomes current. At every point of the run,
     failures included, what was stored before is unchanged and `current` names nothing or a fully written revision.
     */
    method Save(content: string, comment: string, now: nat, stamp: string) returns (r: Option<string>, ghost index: nat)
      modifies this
      ensures faults >= old(faults)
      ensures FirstFree(old(disk).dirs.Keys, stamp, index)
      ensures r.Some? ==> r.value == Candidate(stamp, index)
      ensures r.Some? ==>
                disk == Disk(
                  old(disk).dirs[r.value := Entry(ConfigIs(content), MetaIs(Metadata(r.value, now, comment)))], r)
      ensures r.None? ==> disk.dirs.Keys <= old(disk).dirs.Keys + {Candidate(stamp, index)}
      ensures r.None? ==> disk.current == old(disk).current || disk.current == None
      ensures faults == old(faults) ==> r.Some?
      ensures old(past) <= past && SafeSince(old(disk), past, |old(past)|)
      ensures Safe(old(disk), disk)
    {
      ghost var before := disk;
      var id: string;
      id, index := FreshId(stamp);
      var ok := Attempt();
      if !ok {
        return None, index;
      }
      ok := WriteRevision(id, content, Metadata(id, now, comment));
      if !ok {
        return None, index;
      }
      ghost var written, sofar := disk, past;
      ok := PointCurrentAt(id);
      forall k | |sofar| <= k < |past|
        ensures Safe(before, past[k])
      {
        assert Safe(written, past[k]);
      }
      r := if ok then Some(id) else None;
    }

    // Get.
    method Get(id: string) returns (r: Option<(string, Metadata)>)
      modifies this`faults
      ensures faults >= old(faults)
      ensures r.Some? ==> r == Retrieved(disk, id)
      ensures faults == old(faults) ==> r == Retrieved(disk, id)
    {
      if !ValidId(id) || id !in disk.dirs {
        return None;
      }
      var entry := disk.dirs[id];
      var ok := Attempt();
      if !ok || !entry.meta.MetaIs? {
        return None;
      }
      ok := Attempt();
      if !ok {
        return None;
      }
      match entry.config {
        case NoConfig => r := None;
        case TornConfig(bytes) => r := Some((bytes, entry.meta.meta));
        case ConfigIs(bytes) => r := Some((bytes, entry.meta.meta));
      }
    }

    // List: directories in any order, unreadable entries skipped, then sorted.
    method List() returns (r: Option<seq<Metadata>>)
      modifies this`faults
      ensures faults >= old(faults)
      ensures r.Some? ==> NewestFirst(r.value) && forall m :: m in r.value ==> Listed(disk, m)
      ensures r.Some? && Valid(disk) ==> DistinctIds(r.value)
      ensures faults == old(faults) ==> r.Some? && forall m :: Listed(disk, m) ==> m in r.value
    {
      var ok := Attempt();
      if !ok {
        return None;
      }
      var found: seq<Metadata> := [];
      var rest := disk.dirs.Keys;
      while rest != {}
        invariant rest <= disk.dirs.Keys
        invariant faults >= old(faults)
        invariant Gathered(disk, rest, found)
        invariant faults == old(faults) ==> GatheredAll(disk, rest, found)
        invariant Valid(disk) ==> DistinctIds(found) && forall m :: m in found ==> m.id !in rest
        decreases rest
      {
        var id :| id in rest;
        rest := rest - {id};
        ok := Attempt();
        if ok && disk.dirs[id].meta.MetaIs? {
          found := found + [disk.dirs[id].meta.meta];
        }
      }
      var sorted := SortNewestFirst(found);
      GatheredSorted(disk, found, sorted);
      r := Some(sorted);
    }

    // Current: "" when there is no link; in a store that only Save has written, otherwise a revision Get can read.
    method Current() returns (id: string)
      ensures id == if disk.current.Some? then disk.current.value else ""
      ensures CurrentIsWhole(disk) && Valid(disk) && id != "" ==>
                FullyWritten(disk, id) && (Retrieved(disk, id).Some? <==> ValidId(id))
    {
      id := if disk.current.Some? then disk.current.value else "";
    }

    method Previous() returns (id: string, ghost listing: Option<seq<Metadata>>)
      modifies this`faults
      ensures faults >= old(faults)
      ensures listing.Some? ==> NewestFirst(listing.value) && forall m :: m in listing.value ==> Listed(disk, m)
      ensures listing.Some? && Valid(disk) ==> DistinctIds(listing.value)
      ensures faults == old(faults) ==> listing.Some? && forall m :: Listed(disk, m) ==> m in listing.value
      ensures id == if listing.None? then "" else
                      NextAfter(listing.value, if disk.current.Some? then disk.current.value else "")
    {
      var revisions := List();
      listing := revisions;
      if revisions.None? || |revisions.value| < 2 {
        return "", listing;
      }
      var current := Current();
      var ms := revisions.value;
      var i := 0;
      while i < |ms|
        invariant i <= |ms|
        invariant NextAfter(ms, current) == NextAfter(ms[i..], current)
      {
        if ms[i].id == current && i + 1 < |ms| {
          return ms[i + 1].id, listing;
        }
        assert i + 1 < |ms| ==> ms[i..][1..] == ms[i + 1..];
        i := i + 1;
      }
      id := "";
    }
  }

  /* ---------- What a save makes retrievable ---------- */

  ghost predicate HundredNotTaken(ids: set<string>, stamp: string) {
    exists j :: 0 <= j <= 99 && Candidate(stamp, j) !in ids
  }

  // A saved revision can be fetched back exactly when one of the first hundred ids of its second was free.
  lemma SavedIsRetrieved(before: Disk, after: Disk, stamp: string, index: nat, content: string, meta: Metadata)
    requires IsStamp(stamp) && FirstFree(before.dirs.Keys, stamp, index)
    requires meta.id == Candidate(stamp, index)
    requires after.dirs == before.dirs[meta.id := Entry(ConfigIs(content), MetaIs(meta))]
    ensures Retrieved(after, meta.id)
         == if HundredNotTaken(before.dirs.Keys, stamp) then Some((content, meta)) else None
  {
    PatternAcceptsFirstHundred(stamp, index);
  }

  // The store after n saves within one second, starting from an empty one.
  function Burst(stamp: string, contents: seq<string>, metas: seq<Metadata>): Disk
    requires |contents| == |metas|
  {
    var n := |contents| - 1;
    if contents == [] then Disk(map[], None)
    else
      var before, id := Burst(stamp, contents[..n], metas[..n]), Candidate(stamp, n);
      Disk(before.dirs[id := Entry(ConfigIs(contents[n]), MetaIs(metas[n]))], Some(id))
  }

  lemma {:induction false} BurstKeys(stamp: string, contents: seq<string>, metas: seq<Metadata>)
    requires |contents| == |metas|
    ensures Burst(stamp, contents, metas).dirs.Keys == set j | 0 <= j < |contents| :: Candidate(stamp, j)
  {
    if contents != [] {
      BurstKeys(stamp, contents[..|contents| - 1], metas[..|contents| - 1]);
    }
  }

  // Save number n + 1 of a second finds the first n candidates taken and candidate n free.
  lemma BurstIsSaves(stamp: string, contents: seq<string>, metas: seq<Metadata>)
    requires |contents| == |metas|
    ensures FirstFree(Burst(stamp, contents, metas).dirs.Keys, stamp, |contents|)
  {
    BurstKeys(stamp, contents, metas);
    if j :| 0 <= j < |contents| && Candidate(stamp, j) == Candidate(stamp, |contents|) {
      CandidatesDiffer(stamp, j, |contents|);
    }
  }

  // So, from an empty store, what the last of n saves in one second stored can be fetched exactly when n <= 100.
  lemma BurstRetrieved(stamp: string, contents: seq<string>, metas: seq<Metadata>)
    requires IsStamp(stamp) && |contents| == |metas| > 0
    requires metas[|metas| - 1].id == Candidate(stamp, |metas| - 1)
    ensures Retrieved(Burst(stamp, contents, metas), Candidate(stamp, |metas| - 1))
         == if |metas| <= 100 then Some((contents[|metas| - 1], metas[|metas| - 1])) else None
  {
    PatternAcceptsFirstHundred(stamp, |contents| - 1);
  }

  /* ---------- Histories ---------- */

  datatype Revision = Revision(id: string, content: string, timestamp: nat, comment: string)
  {
    function Meta(): Metadata {
      Metadata(id, timestamp, comment)
    }
  }

  ghost predicate Increasing(h: seq<Revision>) {
    forall i, j :: 0 <= i < j < |h| ==> h[i].timestamp < h[j].timestamp
  }

  ghost predicate Holds(d: Disk, r: Revision) {
    r.id in d.dirs && d.dirs[r.id] == Entry(ConfigIs(r.content), MetaIs(r.Meta()))
  }

  // The store after the given saves, oldest first, under a strictly increasing clock.
  ghost predicate Represents(d: Disk, h: seq<Revision>) {
    && Valid(d) && Increasing(h)
    && (forall i :: 0 <= i < |h| ==> h[i].id != "" && Holds(d, h[i]))
    && (forall m :: Listed(d, m) ==> exists i :: 0 <= i < |h| && h[i].Meta() == m)
    && d.current == (if h == [] then None else Some(h[|h| - 1].id))
  }

  lemma EmptyStore(d: Disk)
    requires d == Disk(map[], None)
    ensures Represents(d, [])
  {
  }

  lemma SaveExtendsHistory(before: Disk, after: Disk, h: seq<Revision>, r: Revision)
    requires Represents(before, h) && r.id !in before.dirs && r.id != ""
    requires h != [] ==> h[|h| - 1].timestamp < r.timestamp
    requires after == Disk(before.dirs[r.id := Entry(ConfigIs(r.content), MetaIs(r.Meta()))], Some(r.id))
    ensures Represents(after, h + [r])
  {
    var g := h + [r];
    assert g[|h|] == r && forall i :: 0 <= i < |h| ==> g[i] == h[i];
    forall i | 0 <= i < |g|
      ensures g[i].id != "" && Holds(after, g[i])
    {
      if i < |h| {
        assert Holds(before, h[i]);
      }
    }
    forall m | Listed(after, m)
      ensures exists i :: 0 <= i < |g| && g[i].Meta() == m
    {
      var id :| id in after.dirs && after.dirs[id].meta == MetaIs(m);
      if id == r.id {
        assert g[|h|].Meta() == m;
      } else {
        assert Listed(before, m);
        var i :| 0 <= i < |h| && h[i].Meta() == m;
        assert g[i].Meta() == m;
      }
    }
  }

  // The store after the saves of a history, from an empty one.
  function StoreOf(h: seq<Revision>): Disk {
    if h == [] then Disk(map[], None)
    else
      var before, r := StoreOf(h[..|h| - 1]), h[|h| - 1];
      Disk(before.dirs[r.id := Entry(ConfigIs(r.content), MetaIs(r.Meta()))], Some(r.id))
  }

  lemma {:induction false} StoreOfDirs(h: seq<Revision>, id: string)
    ensures id in StoreOf(h).dirs <==> exists i :: 0 <= i < |h| && h[i].id == id
  {
    if h != [] {
      StoreOfDirs(h[..|h| - 1], id);
      assert h[|h| - 1].id == id ==> exists i :: 0 <= i < |h| && h[i].id == id;
      if i :| 0 <= i < |h| - 1 && h[i].id == id {
        assert h[..|h| - 1][i].id == id;
      }
    }
  }

  // Any saves under a strictly increasing clock and under different ids, from an empty store, are the history that the
  // store represents.
  lemma {:induction false} SavesAreHistory(h: seq<Revision>)
    requires Increasing(h) && forall i, j :: 0 <= i < j < |h| ==> h[i].id != h[j].id
    requires forall i :: 0 <= i < |h| ==> h[i].id != ""
    ensures Represents(StoreOf(h), h)
  {
    hide Represents;
    if h == [] {
      EmptyStore(StoreOf(h));
    } else {
      var front, r := h[..|h| - 1], h[|h| - 1];
      SavesAreHistory(front);
      StoreOfDirs(front, r.id);
      SaveExtendsHistory(StoreOf(front), StoreOf(h), front, r);
      assert h == front + [r];
    }
  }

  lemma RepresentedIsValid(d: Disk, h: seq<Revision>)
    requires Represents(d, h)
    ensures forall m :: Listed(d, m) <==> exists i :: 0 <= i < |h| && h[i].Meta() == m
    ensures forall i, j :: 0 <= i < j < |h| ==> h[i].id != h[j].id
  {
  }

  lemma HasElement(ms: seq<Metadata>)
    ensures ms == [] || exists m :: m in ms
  {
    assert ms == [] || ms[0] in ms;
  }

  // A newest-first listing of the metadata of a history is the history backwards.
  lemma {:induction false} SortedIsReversed(h: seq<Revision>, ms: seq<Metadata>)
    requires Increasing(h) && NewestFirst(ms) && DistinctIds(ms)
    requires forall i, j :: 0 <= i < j < |h| ==> h[i].id != h[j].id
    requires forall m :: m in ms <==> exists i :: 0 <= i < |h| && h[i].Meta() == m
    ensures |ms| == |h|
    ensures forall i :: 0 <= i < |h| ==> ms[i] == h[|h| - 1 - i].Meta()
  {
    if h == [] {
      HasElement(ms);
    } else {
      var front, last := h[..|h| - 1], h[|h| - 1];
      NewestIsLast(h, ms);
      forall m
        ensures m in ms[1..] <==> exists i :: 0 <= i < |front| && front[i].Meta() == m
      {
        TailElements(h, front, ms, m);
      }
      SortedIsReversed(front, ms[1..]);
      forall i | 0 <= i < |h|
        ensures ms[i] == h[|h| - 1 - i].Meta()
      {
        if i > 0 {
          assert ms[1..][i - 1] == front[|front| - 1 - (i - 1)].Meta();
        }
      }
    }
  }

  lemma NewestIsLast(h: seq<Revision>, ms: seq<Metadata>)
    requires h != [] && Increasing(h) && NewestFirst(ms)
    requires forall m :: m in ms <==> exists i :: 0 <= i < |h| && h[i].Meta() == m
    ensures ms != [] && ms[0] == h[|h| - 1].Meta()
  {
    var last := h[|h| - 1].Meta();
    assert last in ms;
    var k :| 0 <= k < |ms| && ms[k] == last;
    assert ms[0] in ms;
    var i :| 0 <= i < |h| && h[i].Meta() == ms[0];
  }

  lemma TailElements(h: seq<Revision>, front: seq<Revision>, ms: seq<Metadata>, m: Metadata)
    requires h != [] && front == h[..|h| - 1] && DistinctIds(ms) && ms != [] && ms[0] == h[|h| - 1].Meta()
    requires forall i, j :: 0 <= i < j < |h| ==> h[i].id != h[j].id
    requires m in ms <==> exists i :: 0 <= i < |h| && h[i].Meta() == m
    ensures m in ms[1..] <==> exists i :: 0 <= i < |front| && front[i].Meta() == m
  {
  }

  // With a strictly increasing clock List is the reverse of the save order, Current is its head and Previous its
  // second entry.
  lemma ListingOfHistory(d: Disk, h: seq<Revision>, ms: seq<Metadata>)
    requires Represents(d, h) && NewestFirst(ms) && DistinctIds(ms)
    requires forall m :: m in ms <==> Listed(d, m)
    ensures |ms| == |h| && forall i :: 0 <= i < |h| ==> ms[i] == h[|h| - 1 - i].Meta()
    ensures h != [] ==> d.current == Some(ms[0].id)
    ensures d.current.Some? ==> NextAfter(ms, d.current.value) == if |h| < 2 then "" else h[|h| - 2].id
  {
    RepresentedIsValid(d, h);
    SortedIsReversed(h, ms);
  }

  // What a rollback goes by: the second newest revision, which Get reads exactly when its id has the pattern.
  lemma PreviousOfHistory(d: Disk, h: seq<Revision>, ms: seq<Metadata>)
    requires Represents(d, h) && NewestFirst(ms) && (Valid(d) ==> DistinctIds(ms))
    requires (forall m :: m in ms ==> Listed(d, m)) && (forall m :: Listed(d, m) ==> m in ms)
    ensures var id := NextAfter(ms, if d.current.Some? then d.current.value else "");
            && (id == "" <==> |h| < 2)
            && (|h| >= 2 ==> id == h[|h| - 2].id)
            && (|h| >= 2 && ValidId(id) ==> Retrieved(d, id) == Some((h[|h| - 2].content, h[|h| - 2].Meta())))
            && (|h| >= 2 && !ValidId(id) ==> Retrieved(d, id) == None)
  {
    hide Listed, NewestFirst, DistinctIds, ValidId;
    ListingOfHistory(d, h, ms);
    if |h| >= 2 {
      assert Holds(d, h[|h| - 2]);
    }
  }

  lemma HistoryIsStored(d: Disk, h: seq<Revision>, r: Revision)
    requires Represents(d, h) && r in h
    ensures r.id in d.dirs
  {
    var i :| 0 <= i < |h| && h[i] == r;
    assert Holds(d, h[i]);
  }
}
