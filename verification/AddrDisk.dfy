/** Writing the address manager to a stream and reading it back: ids, the random order and the
    tried buckets are not stored but rebuilt. */
module AddrDisk {
  import opened AddrBook
  import opened AddrMan
  import opened AddrRuns
  import opened Sets

  /** The stored part of an entry. */
  datatype DiskEntry = DiskEntry(address: Address, source: NetAddr, lastSuccess: int, attempts: int)

  datatype Token = TByte(byte: int) | TKey(key: seq<int>) | TInt(n: int) | TEntry(entry: DiskEntry)

  function Stored(e: Entry): DiskEntry { DiskEntry(e.address, e.source, e.lastSuccess, e.attempts) }

  function Restored(d: DiskEntry): Entry {
    Entry(d.address, d.source, d.lastSuccess, 0, d.attempts, 0, false, -1)
  }

  /** In which order entries and bucket members are written: members of "new" buckets are given by
      their place in `news`. */
  datatype Layout = Layout(news: seq<int>, trieds: seq<int>, members: seq<seq<int>>)

  ghost predicate ListsSet(list: seq<int>, s: set<int>) {
    NoDup(list) && forall x :: x in list <==> x in s
  }

  ghost predicate MembersOk(k: Book, news: seq<int>, members: seq<int>, b: int)
    requires 0 <= b < |k.newBuckets|
  {
    NoDup(members) && forall i :: i in members <==> 0 <= i < |news| && news[i] in k.newBuckets[b]
  }

  ghost predicate LayoutOk(k: Book, l: Layout) {
    && ListsSet(l.news, NewIds(k.infos))
    && ListsSet(l.trieds, TriedIds(k.infos))
    && |l.members| == |k.newBuckets|
    && forall b :: 0 <= b < |l.members| ==> MembersOk(k, l.news, l.members[b], b)
  }

  /** The token of an entry (ids without an entry do not occur). */
  ghost function EntryToken(infos: map<int, Entry>, id: int): Token {
    if id in infos then TEntry(Stored(infos[id])) else TInt(0)
  }

  ghost function EntryTokens(infos: map<int, Entry>, list: seq<int>): (r: seq<Token>)
    ensures |r| == |list| && forall i :: 0 <= i < |list| ==> r[i] == EntryToken(infos, list[i])
  {
    seq(|list|, i requires 0 <= i < |list| => EntryToken(infos, list[i]))
  }

  ghost function MemberTokens(members: seq<int>): (r: seq<Token>)
    ensures |r| == |members| + 1 && r[0] == TInt(|members|)
    ensures forall i :: 0 <= i < |members| ==> r[i + 1] == TInt(members[i])
  {
    [TInt(|members|)] + PlaceTokens(members)
  }

  ghost function PlaceTokens(members: seq<int>): (r: seq<Token>)
    ensures |r| == |members| && forall i :: 0 <= i < |members| ==> r[i] == TInt(members[i])
  {
    seq(|members|, i requires 0 <= i < |members| => TInt(members[i]))
  }

  ghost function BucketTokens(members: seq<seq<int>>): seq<Token> {
    if members == [] then []
    else BucketTokens(members[..|members| - 1]) + MemberTokens(members[|members| - 1])
  }

  function Header(key: seq<int>, newCount: int, triedCount: int): seq<Token> {
    [TByte(0), TKey(key), TInt(newCount), TInt(triedCount), TInt(NEW_BUCKET_COUNT)]
  }

  /** The stream a manager is written as. */
  ghost function Encode(k: Book, l: Layout): seq<Token>
    requires LayoutOk(k, l)
  {
    Header(k.key, k.newCount, k.triedCount) + EntryTokens(k.infos, l.news) + EntryTokens(k.infos, l.trieds) +
    BucketTokens(l.members)
  }

  lemma {:induction false} BucketTokensPrefix(members: seq<seq<int>>, n: nat)
    requires n <= |members|
    ensures BucketTokens(members[..n]) <= BucketTokens(members)
  {
    if n < |members| {
      BucketTokensPrefix(members[..|members| - 1], n);
      assert members[..|members| - 1][..n] == members[..n];
    } else {
      assert members[..n] == members;
    }
  }

  lemma BucketTokensAt(members: seq<seq<int>>, n: nat)
    requires n < |members|
    ensures BucketTokens(members[..n + 1]) == BucketTokens(members[..n]) + MemberTokens(members[n])
    ensures BucketTokens(members[..n]) + MemberTokens(members[n]) <= BucketTokens(members)
  {
    assert members[..n + 1][..n] == members[..n];
    BucketTokensPrefix(members, n + 1);
  }

  // ----- writing -----

  predicate InTable(infos: map<int, Entry>, id: int, tried: bool) { id in infos && infos[id].inTried == tried }

  /** The ids of `keys` in one of the two tables, in order. */
  ghost function Select(infos: map<int, Entry>, keys: seq<int>, tried: bool): seq<int> {
    if keys == [] then []
    else
      var rest := Select(infos, keys[..|keys| - 1], tried);
      var last := keys[|keys| - 1];
      if InTable(infos, last, tried) then rest + [last] else rest
  }

  lemma {:induction false} SelectFacts(infos: map<int, Entry>, keys: seq<int>, tried: bool)
    requires NoDup(keys)
    ensures NoDup(Select(infos, keys, tried))
    ensures forall x :: x in Select(infos, keys, tried) <==> x in keys && InTable(infos, x, tried)
  {
    if keys != [] {
      var init, last := keys[..|keys| - 1], keys[|keys| - 1];
      SelectFacts(infos, init, tried);
      assert keys == init + [last];
    }
  }

  lemma {:induction false} SelectPrefix(infos: map<int, Entry>, keys: seq<int>, n: nat, tried: bool)
    requires n <= |keys|
    ensures Select(infos, keys[..n], tried) <= Select(infos, keys, tried)
  {
    if n < |keys| {
      SelectPrefix(infos, keys[..|keys| - 1], n, tried);
      assert keys[..|keys| - 1][..n] == keys[..n];
    } else {
      assert keys[..n] == keys;
    }
  }

  ghost function Table(infos: map<int, Entry>, tried: bool): set<int> {
    if tried then TriedIds(infos) else NewIds(infos)
  }

  /** The selection of all keys, already complete once it has as many members as the table. */
  lemma SelectAll(infos: map<int, Entry>, keys: seq<int>, n: nat, tried: bool)
    requires NoDup(keys) && (forall x :: x in keys <==> x in infos) && n <= |keys|
    ensures ListsSet(Select(infos, keys, tried), Table(infos, tried))
    ensures |Select(infos, keys, tried)| == |Table(infos, tried)|
    ensures |Select(infos, keys[..n], tried)| <= |Table(infos, tried)|
    ensures n == |keys| || |Select(infos, keys[..n], tried)| == |Table(infos, tried)| ==>
            Select(infos, keys[..n], tried) == Select(infos, keys, tried)
  {
    SelectFacts(infos, keys, tried);
    ListSize(Select(infos, keys, tried), Table(infos, tried));
    SelectPrefix(infos, keys, n, tried);
    assert n == |keys| ==> keys[..n] == keys;
  }

  lemma SelectStep(infos: map<int, Entry>, keys: seq<int>, n: nat, tried: bool)
    requires n < |keys|
    ensures Select(infos, keys[..n + 1], tried) ==
            if InTable(infos, keys[n], tried) then Select(infos, keys[..n], tried) + [keys[n]]
            else Select(infos, keys[..n], tried)
  {
    assert keys[..n + 1][..n] == keys[..n];
  }

  /** Each listed id maps to its place, and comes from the keys visited. */
  ghost predicate Places(places: map<int, int>, news: seq<int>, keys: seq<int>) {
    forall i :: 0 <= i < |news| ==> news[i] in keys && IsPlace(places, news[i], i)
  }

  predicate IsPlace(places: map<int, int>, id: int, i: int) { id in places && places[id] == i }

  lemma PlacesStep(places: map<int, int>, news: seq<int>, keys: seq<int>, id: int)
    requires Places(places, news, keys) && id !in keys
    ensures Places(places[id := |news|], news, keys + [id]) && Places(places[id := |news|], news + [id], keys + [id])
  {
    forall i | 0 <= i < |news| ensures news[i] in keys + [id] && IsPlace(places[id := |news|], news[i], i) {
      assert IsPlace(places, news[i], i);
    }
  }

  /** The writer of "new" entries after the keys visited so far. */
  ghost predicate NewsSoFar(infos: map<int, Entry>, keys: seq<int>, out: seq<Token>, places: map<int, int>,
                            count: int) {
    var news := Select(infos, keys, false);
    out == EntryTokens(infos, news) && count == |news| && Places(places, news, keys)
  }

  /** Gives the next entry a place and writes it if it is in "new". */
  method WriteNext(m: AddrMan, keys: seq<int>, n: nat, out: seq<Token>, places: map<int, int>, count: int)
    returns (out': seq<Token>, places': map<int, int>, count': int)
    requires m.Consistent() && NoDup(keys) && n < |keys| && keys[n] in m.infos
    requires NewsSoFar(m.infos, keys[..n], out, places, count)
    ensures NewsSoFar(m.infos, keys[..n + 1], out', places', count')
  {
    var id := keys[n];
    NewsStep(m.env, m.Now(), keys, n, places, Select(m.infos, keys[..n], false));
    out', places', count' := out, places[id := count], count;
    if m.infos[id].refCount != 0 {
      out' := out + [TEntry(Stored(m.infos[id]))];
      count' := count + 1;
    }
  }

  /** Writes the entries in "new" and gives each its place. */
  method WriteNews(m: AddrMan, keys: seq<int>) returns (out: seq<Token>, places: map<int, int>)
    requires m.Consistent() && NoDup(keys) && forall x :: x in keys <==> x in m.infos
    ensures out == EntryTokens(m.infos, Select(m.infos, keys, false))
    ensures Places(places, Select(m.infos, keys, false), keys)
  {
    out, places := [], map[];
    var count, n := 0, 0;
    while n < |keys| && count != m.newCount
      invariant 0 <= n <= |keys| && NewsSoFar(m.infos, keys[..n], out, places, count)
    {
      assert keys[n] in keys;
      out, places, count := WriteNext(m, keys, n, out, places, count);
      n := n + 1;
    }
    SelectAll(m.infos, keys, n, false);
    assert forall i :: 0 <= i < count ==> Select(m.infos, keys[..n], false)[i] in keys[..n];
  }

  lemma NewsStep(env: Env, k: Book, keys: seq<int>, n: nat, places: map<int, int>, news: seq<int>)
    requires Ok(env, k, -1) && NoDup(keys) && n < |keys| && keys[n] in k.infos
    requires news == Select(k.infos, keys[..n], false) && Places(places, news, keys[..n])
    ensures var news' := if k.infos[keys[n]].refCount != 0 then news + [keys[n]] else news;
      news' == Select(k.infos, keys[..n + 1], false) && Places(places[keys[n] := |news|], news', keys[..n + 1])
  {
    assert RefOk(k.infos, k.newBuckets, keys[n], -1);
    SelectStep(k.infos, keys, n, false);
    assert keys[..n + 1] == keys[..n] + [keys[n]];
    PlacesStep(places, news, keys[..n], keys[n]);
  }

  ghost predicate TriedSoFar(infos: map<int, Entry>, keys: seq<int>, n: nat, out: seq<Token>) {
    n <= |keys| && out == EntryTokens(infos, Select(infos, keys[..n], true))
  }

  lemma TriedNext(infos: map<int, Entry>, keys: seq<int>, n: nat, out: seq<Token>, id: int)
    requires n < |keys| && id == keys[n] && id in infos && TriedSoFar(infos, keys, n, out)
    ensures TriedSoFar(infos, keys, n + 1, if infos[id].inTried then out + [TEntry(Stored(infos[id]))] else out)
  {
    SelectStep(infos, keys, n, true);
    var list := Select(infos, keys[..n], true);
    assert EntryTokens(infos, list + [id]) == EntryTokens(infos, list) + [EntryToken(infos, id)];
  }

  /** Writes the tried entries. */
  method WriteTrieds(m: AddrMan, keys: seq<int>) returns (out: seq<Token>)
    requires m.Consistent() && NoDup(keys) && forall x :: x in keys <==> x in m.infos
    ensures out == EntryTokens(m.infos, Select(m.infos, keys, true))
  {
    out := WriteTable(m.infos, keys, m.triedCount);
  }

  method WriteTable(infos: map<int, Entry>, keys: seq<int>, total: int) returns (out: seq<Token>)
    requires NoDup(keys) && (forall x :: x in keys <==> x in infos) && total == |TriedIds(infos)|
    ensures out == EntryTokens(infos, Select(infos, keys, true))
  {
    out := [];
    var count, n := 0, 0;
    while n < |keys| && count != total
      invariant 0 <= n <= |keys| && TriedSoFar(infos, keys, n, out) && count == |out|
    {
      var id := keys[n];
      assert id in keys;
      TriedNext(infos, keys, n, out, id);
      if infos[id].inTried {
        out := out + [TEntry(Stored(infos[id]))];
        count := count + 1;
      }
      n := n + 1;
    }
    SelectAll(infos, keys, n, true);
  }

  /** The keys written so far are the listed ids at the members' places. */
  ghost predicate MembersSoFar(news: seq<int>, keys: seq<int>, n: nat, members: seq<int>, out: seq<Token>) {
    && |members| == n <= |keys| && out == [TInt(|keys|)] + PlaceTokens(members)
    && forall j :: 0 <= j < n ==> 0 <= members[j] < |news| && news[members[j]] == keys[j]
  }

  /** Every id is listed, at the place noted. */
  ghost predicate Noted(places: map<int, int>, news: seq<int>, ids: set<int>) {
    && (forall i :: 0 <= i < |news| ==> IsPlace(places, news[i], i))
    && forall id :: id in ids ==> id in news
  }

  lemma MembersStep(news: seq<int>, keys: seq<int>, n: nat, members: seq<int>, out: seq<Token>, places: map<int, int>,
                    ids: set<int>, id: int)
    requires MembersSoFar(news, keys, n, members, out) && n < |keys| && id == keys[n] && id in ids
    requires Noted(places, news, ids)
    ensures id in places && MembersSoFar(news, keys, n + 1, members + [places[id]], out + [TInt(places[id])])
  {
    var i :| 0 <= i < |news| && news[i] == id;
    assert IsPlace(places, news[i], i);
    assert PlaceTokens(members + [i]) == PlaceTokens(members) + [TInt(i)];
  }

  lemma MembersDone(k: Book, news: seq<int>, keys: seq<int>, members: seq<int>, out: seq<Token>, b: int)
    requires 0 <= b < |k.newBuckets| && NoDup(news) && MembersSoFar(news, keys, |keys|, members, out)
    requires NoDup(keys) && forall x :: x in keys <==> x in k.newBuckets[b]
    ensures out == MemberTokens(members) && MembersOk(k, news, members, b)
  {
    forall i, j | 0 <= i < j < |members| ensures members[i] != members[j] { assert keys[i] != keys[j]; }
    forall i ensures i in members <==> 0 <= i < |news| && news[i] in k.newBuckets[b] {
      if i in members {
        var j :| 0 <= j < |members| && members[j] == i;
        assert keys[j] in keys;
      }
      if 0 <= i < |news| && news[i] in k.newBuckets[b] { MemberFound(news, keys, members, k.newBuckets[b], i); }
    }
  }

  lemma MemberFound(news: seq<int>, keys: seq<int>, members: seq<int>, bucket: set<int>, i: int)
    requires NoDup(news) && |members| == |keys| && 0 <= i < |news| && news[i] in bucket
    requires forall x :: x in keys <==> x in bucket
    requires forall j :: 0 <= j < |members| ==> 0 <= members[j] < |news| && news[members[j]] == keys[j]
    ensures i in members
  {
    var id := news[i];
    assert id in keys;
    var j :| 0 <= j < |keys| && keys[j] == id;
    SamePlace(news, members[j], i);
    assert members[j] in members;
  }

  lemma SamePlace(list: seq<int>, i: int, j: int)
    requires NoDup(list) && 0 <= i < |list| && 0 <= j < |list| && list[i] == list[j]
    ensures i == j
  {
  }

  /** Writes a size and the places of so many ids. */
  method WriteMembers(keys: seq<int>, places: map<int, int>, ghost news: seq<int>, ghost ids: set<int>)
    returns (out: seq<Token>, ghost members: seq<int>)
    requires Noted(places, news, ids) && forall x :: x in keys ==> x in ids
    ensures MembersSoFar(news, keys, |keys|, members, out)
  {
    out, members := [TInt(|keys|)], [];
    for n := 0 to |keys|
      invariant MembersSoFar(news, keys, n, members, out)
    {
      var id := keys[n];
      MembersStep(news, keys, n, members, out, places, ids, id);
      out, members := out + [TInt(places[id])], members + [places[id]];
    }
  }

  /** Writes one "new" bucket: its size, then the places of its members. */
  method WriteBucket(m: AddrMan, b: int, places: map<int, int>, ghost news: seq<int>)
    returns (out: seq<Token>, ghost members: seq<int>)
    requires m.Consistent() && 0 <= b < |m.newBuckets|
    requires ListsSet(news, NewIds(m.infos)) && forall i :: 0 <= i < |news| ==> IsPlace(places, news[i], i)
    ensures out == MemberTokens(members) && MembersOk(m.Now(), news, members, b)
  {
    var keys := Ascending(m.newBuckets[b]);
    assert NewBucketOk(m.infos, m.newBuckets, b);
    out, members := WriteMembers(keys, places, news, m.newBuckets[b]);
    MembersDone(m.Now(), news, keys, members, out, b);
  }

  /** The first b buckets are written. */
  ghost predicate BucketsSoFar(k: Book, news: seq<int>, members: seq<seq<int>>, b: nat, out: seq<Token>) {
    && |members| == b <= |k.newBuckets| && out == BucketTokens(members)
    && forall c :: 0 <= c < b ==> MembersOk(k, news, members[c], c)
  }

  lemma BucketsStep(k: Book, news: seq<int>, members: seq<seq<int>>, b: nat, out: seq<Token>, next: seq<int>)
    requires BucketsSoFar(k, news, members, b, out) && b < |k.newBuckets| && MembersOk(k, news, next, b)
    ensures BucketsSoFar(k, news, members + [next], b + 1, out + MemberTokens(next))
  {
    assert (members + [next])[..b] == members;
  }

  /** Writes the whole manager. */
  /** The form of the stream: version, key and three numbers, then the new and the tried entries. */
  ghost predicate Formatted(k: Book, file: seq<Token>, all: seq<int>) {
    && |file| >= 5 + |all| && |all| == k.newCount + k.triedCount
    && file[..5] == [TByte(0), TKey(k.key), TInt(k.newCount), TInt(k.triedCount), TInt(256)]
    && forall i :: 0 <= i < |all| ==>
         && all[i] in k.infos && (k.infos[all[i]].inTried <==> i >= k.newCount)
         && var e := k.infos[all[i]];
         file[5 + i] == TEntry(DiskEntry(e.address, e.source, e.lastSuccess, e.attempts))
  }

  lemma EncodeFormatted(env: Env, k: Book, l: Layout)
    requires Ok(env, k, -1) && LayoutOk(k, l)
    ensures Formatted(k, Encode(k, l), l.news + l.trieds)
  {
    var file, all := Encode(k, l), l.news + l.trieds;
    ListSize(l.news, NewIds(k.infos));
    ListSize(l.trieds, TriedIds(k.infos));
    forall i | 0 <= i < |all| ensures all[i] in k.infos && (k.infos[all[i]].inTried <==> i >= k.newCount) &&
      file[5 + i] == EntryToken(k.infos, all[i])
    {
      if i < |l.news| {
        assert l.news[i] in l.news;
        assert file[5 + i] == EntryTokens(k.infos, l.news)[i];
      } else {
        var j := i - |l.news|;
        assert l.trieds[j] in l.trieds;
        assert file[5 + i] == EntryTokens(k.infos, l.trieds)[j];
      }
    }
  }

  method Write(m: AddrMan) returns (file: seq<Token>, ghost l: Layout)
    requires m.Consistent()
    ensures LayoutOk(m.Now(), l) && file == Encode(m.Now(), l)
    ensures Formatted(m.Now(), file, l.news + l.trieds)
  {
    var keys := Ascending(m.infos.Keys);
    var news, places := WriteNews(m, keys);
    var trieds := WriteTrieds(m, keys);
    SelectAll(m.infos, keys, 0, false);
    SelectAll(m.infos, keys, 0, true);
    l := Layout(Select(m.infos, keys, false), Select(m.infos, keys, true), []);
    var buckets := [];
    for b := 0 to |m.newBuckets|
      invariant l == Layout(Select(m.infos, keys, false), Select(m.infos, keys, true), l.members)
      invariant BucketsSoFar(m.Now(), l.news, l.members, b, buckets)
    {
      var out, members := WriteBucket(m, b, places, l.news);
      BucketsStep(m.Now(), l.news, l.members, b, buckets, members);
      buckets := buckets + out;
      l := Layout(l.news, l.trieds, l.members + [members]);
    }
    file := Header(m.key, m.newCount, m.triedCount) + news + trieds + buckets;
    EncodeFormatted(m.env, m.Now(), l);
  }
}
