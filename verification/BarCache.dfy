/** The cache of bar datasets: three dictionaries and a recency list in lock step, trimmed from its old end. */
module BarCache {
  datatype Value = Text(text: string) | Count(n: nat) | Json(raw: string)

  type Dict = map<string, Value>

  /** What a read of a file amounts to: nothing usable, or its bars and its own metadata. */
  datatype Content = Unusable | Usable(bars: Dict, meta: Dict)

  datatype File = Absent | Present(mtime: real, content: Content)

  datatype Parsed = Parsed(dataset: Dict, meta: Dict)

  /** One call: the path as given, the absolute path it stands for, the file found there and the time. */
  datatype Request = Request(path: string, key: string, file: File, now: real)

  datatype Cache = Cache(bars: map<string, Dict>, metas: map<string, Dict>, stamps: map<string, real>, order: seq<string>)

  const EMPTY := Cache(map[], map[], map[], [])

  function ContentOf(file: File): Content {
    if file.Absent? then Unusable else file.content
  }

  function Parse(content: Content, path: string): Parsed {
    match content
    case Unusable => Parsed(map[], map["path" := Text(path), "symbol_count" := Count(0)])
    case Usable(bars, meta) =>
      var named := if "path" in meta then meta else meta["path" := Text(path)];
      Parsed(bars, named["symbol_count" := Count(|bars|)])
  }

  // ---------- operations ----------

  /** `list.remove`, which does nothing here when the item is missing. */
  function Without(order: seq<string>, key: string): seq<string> {
    if order == [] then [] else if order[0] == key then order[1..] else [order[0]] + Without(order[1..], key)
  }

  function Drop(c: Cache, key: string): Cache {
    Cache(c.bars - {key}, c.metas - {key}, c.stamps - {key}, Without(c.order, key))
  }

  /** Drops the oldest entries down to the limit; 0 stands for no limit. */
  function Trim(c: Cache, limit: nat): Cache
    decreases |c.order|
  {
    if limit == 0 || |c.order| <= limit then c
    else
      WithoutIsNoLonger(c.order[1..], c.order[0]);
      Trim(Drop(c.(order := c.order[1..]), c.order[0]), limit)
  }

  lemma {:induction false} WithoutIsNoLonger(order: seq<string>, key: string)
    ensures |Without(order, key)| <= |order|
  {
    if order != [] && order[0] != key {
      WithoutIsNoLonger(order[1..], key);
    }
  }

  function MaybeReset(c: Cache, key: string, file: File): Cache {
    if key !in c.bars then c
    else if file.Absent? then Drop(c, key)
    else if key !in c.stamps || file.mtime != c.stamps[key] then Drop(c, key)
    else c
  }

  function Stamp(r: Request): real {
    if r.file.Absent? then r.now else r.file.mtime
  }

  function Stored(c: Cache, r: Request): Cache {
    var parsed := Parse(ContentOf(r.file), r.path);
    Cache(c.bars[r.key := parsed.dataset], c.metas[r.key := parsed.meta], c.stamps[r.key := Stamp(r)], c.order + [r.key])
  }

  function Load(c: Cache, limit: nat, r: Request): Cache {
    if r.path == "" then c else
      var checked := MaybeReset(c, r.key, r.file);
      if r.key in checked.bars then checked.(order := Without(checked.order, r.key) + [r.key])
      else Trim(Stored(checked, r), limit)
  }

  function Result(c: Cache, r: Request): Parsed {
    if r.path == "" then Parsed(map[], map[]) else
      var checked := MaybeReset(c, r.key, r.file);
      if r.key in checked.bars
      then Parsed(checked.bars[r.key], if r.key in checked.metas then checked.metas[r.key] else map[])
      else Parse(ContentOf(r.file), r.path)
  }

  // ---------- the four structures in lock step ----------

  ghost predicate Distinct(order: seq<string>) {
    forall i, j | 0 <= i < j < |order| :: order[i] != order[j]
  }

  ghost predicate InStep(c: Cache) {
    && Distinct(c.order)
    && (forall k :: k in c.bars <==> k in c.order)
    && (forall k :: k in c.metas <==> k in c.order)
    && (forall k :: k in c.stamps <==> k in c.order)
  }

  lemma ConsIsDistinct(first: string, rest: seq<string>)
    requires Distinct(rest) && first !in rest
    ensures Distinct([first] + rest)
  {
    assert forall i | 0 <= i < |rest| :: rest[i] in rest;
  }

  lemma {:induction false} WithoutShape(order: seq<string>, key: string)
    requires Distinct(order)
    ensures Distinct(Without(order, key))
    ensures forall k :: k in Without(order, key) <==> k in order && k != key
    ensures key !in order ==> Without(order, key) == order
  {
    if order != [] {
      var first, rest := order[0], order[1..];
      assert order == [first] + rest;
      assert first !in rest by {
        assert forall i | 0 <= i < |rest| :: order[0] != order[i + 1] == rest[i];
      }
      assert Distinct(rest);
      WithoutShape(rest, key);
      if first != key {
        ConsIsDistinct(first, Without(rest, key));
        assert Without(order, key) == [first] + Without(rest, key);
      }
    }
  }

  lemma DropKeeps(c: Cache, key: string)
    requires InStep(c)
    ensures InStep(Drop(c, key))
  {
    WithoutShape(c.order, key);
  }

  /** The last `limit` items, or all of them when there is no limit. */
  function Last<T>(limit: nat, s: seq<T>): seq<T> {
    if limit == 0 || |s| <= limit then s else s[|s| - limit..]
  }

  ghost predicate SameEntry(c: Cache, d: Cache, k: string) {
    && k in c.bars && k in c.metas && k in c.stamps
    && k in d.bars && k in d.metas && k in d.stamps
    && c.bars[k] == d.bars[k] && c.metas[k] == d.metas[k] && c.stamps[k] == d.stamps[k]
  }

  function Popped(c: Cache): Cache
    requires c.order != []
  {
    Drop(c.(order := c.order[1..]), c.order[0])
  }

  lemma PopKeeps(c: Cache)
    requires InStep(c) && c.order != []
    ensures InStep(Popped(c)) && Popped(c).order == c.order[1..]
  {
    assert c.order == [c.order[0]] + c.order[1..];
    assert forall k :: k in c.order <==> k == c.order[0] || k in c.order[1..];
    assert Distinct(c.order[1..]) && c.order[0] !in c.order[1..];
    WithoutShape(c.order[1..], c.order[0]);
  }

  lemma {:induction false} TrimKeeps(c: Cache, limit: nat)
    requires InStep(c)
    ensures InStep(Trim(c, limit)) && Trim(c, limit).order == Last(limit, c.order)
    decreases |c.order|
  {
    if limit != 0 && |c.order| > limit {
      PopKeeps(c);
      TrimKeeps(Popped(c), limit);
      LastOfRest(limit, c.order);
    }
  }

  lemma LastOfRest<T>(limit: nat, s: seq<T>)
    requires 0 < limit < |s|
    ensures Last(limit, s[1..]) == Last(limit, s)
  {
  }

  lemma {:induction false} TrimSpares(c: Cache, limit: nat, k: string)
    requires InStep(c) && k in Trim(c, limit).bars
    ensures SameEntry(c, Trim(c, limit), k)
    decreases |c.order|
  {
    if limit != 0 && |c.order| > limit {
      PopKeeps(c);
      TrimSpares(Popped(c), limit, k);
    }
  }

  lemma ResetKeeps(c: Cache, key: string, file: File)
    requires InStep(c)
    ensures InStep(MaybeReset(c, key, file))
    ensures MaybeReset(c, key, file).order == if key in MaybeReset(c, key, file).bars then c.order else Without(c.order, key)
  {
    DropKeeps(c, key);
    WithoutShape(c.order, key);
  }

  lemma HitKeeps(c: Cache, limit: nat, r: Request)
    requires InStep(c) && r.path != "" && r.key in MaybeReset(c, r.key, r.file).bars
    ensures InStep(Load(c, limit, r))
    ensures limit == 0 || |c.order| <= limit ==> Load(c, limit, r).order == Last(limit, Without(c.order, r.key) + [r.key])
  {
    ResetKeeps(c, r.key, r.file);
    WithoutShape(c.order, r.key);
    WithoutLength(c.order, r.key);
  }

  lemma MissKeeps(c: Cache, limit: nat, r: Request)
    requires InStep(c) && r.path != "" && r.key !in MaybeReset(c, r.key, r.file).bars
    ensures InStep(Load(c, limit, r))
    ensures Load(c, limit, r).order == Last(limit, Without(c.order, r.key) + [r.key])
  {
    var checked := MaybeReset(c, r.key, r.file);
    ResetKeeps(c, r.key, r.file);
    WithoutShape(c.order, r.key);
    TrimKeeps(Stored(checked, r), limit);
  }

  /** Every load keeps the structures in step, and moves the requested key to the young end of a list cut to
      the limit, whether the load hit, missed or found a stale entry. */
  lemma LoadKeeps(c: Cache, limit: nat, r: Request)
    requires InStep(c)
    ensures InStep(Load(c, limit, r))
    ensures r.path != "" && (limit == 0 || |c.order| <= limit) ==>
      Load(c, limit, r).order == Last(limit, Without(c.order, r.key) + [r.key])
  {
    if r.path != "" {
      if r.key in MaybeReset(c, r.key, r.file).bars {
        HitKeeps(c, limit, r);
      } else {
        MissKeeps(c, limit, r);
      }
    }
  }

  lemma {:induction false} WithoutLength(order: seq<string>, key: string)
    requires key in order
    ensures |Without(order, key)| == |order| - 1
  {
    if order[0] != key {
      assert key in order[1..];
      WithoutLength(order[1..], key);
    }
  }

  // ---------- recency over a whole trace ----------

  function Run(limit: nat, trace: seq<Request>): Cache {
    if trace == [] then EMPTY else Load(Run(limit, trace[..|trace| - 1]), limit, trace[|trace| - 1])
  }

  /** The keys of the requests that name a path. */
  function Keys(trace: seq<Request>): seq<string> {
    if trace == [] then []
    else (if trace[0].path == "" then [] else [trace[0].key]) + Keys(trace[1..])
  }

  /** Each key once, at its last occurrence. */
  function Recent(keys: seq<string>): seq<string> {
    if keys == [] then []
    else (if keys[0] in keys[1..] then [] else [keys[0]]) + Recent(keys[1..])
  }

  lemma {:induction false} RecentShape(keys: seq<string>)
    ensures Distinct(Recent(keys))
    ensures forall k :: k in Recent(keys) <==> k in keys
  {
    if keys != [] {
      var rest := keys[1..];
      RecentShape(rest);
      assert keys == [keys[0]] + rest;
      assert forall i | 0 <= i < |Recent(rest)| :: Recent(rest)[i] in Recent(rest);
    }
  }

  lemma {:induction false} WithoutOfConcat(a: seq<string>, b: seq<string>, key: string)
    ensures Without(a + b, key) == if key in a then Without(a, key) + b else a + Without(b, key)
  {
    if a == [] {
      assert a + b == b;
    } else {
      assert (a + b)[1..] == a[1..] + b;
      assert key in a <==> key == a[0] || key in a[1..];
      WithoutOfConcat(a[1..], b, key);
    }
  }

  lemma RecentOfCons(first: string, rest: seq<string>)
    ensures Recent([first] + rest) == (if first in rest then [] else [first]) + Recent(rest)
  {
    assert ([first] + rest)[1..] == rest;
  }

  lemma RecentAgain(first: string, rest: seq<string>, key: string)
    requires first in rest && Recent(rest + [key]) == Without(Recent(rest), key) + [key]
    ensures Recent([first] + rest + [key]) == Without(Recent([first] + rest), key) + [key]
  {
    RecentOfCons(first, rest);
    RecentOfCons(first, rest + [key]);
    assert [first] + rest + [key] == [first] + (rest + [key]);
    assert [] + Recent(rest) == Recent(rest) && [] + Recent(rest + [key]) == Recent(rest + [key]);
  }

  lemma RecentAnew(first: string, rest: seq<string>, key: string)
    requires first !in rest && Recent(rest + [key]) == Without(Recent(rest), key) + [key]
    ensures Recent([first] + rest + [key]) == Without(Recent([first] + rest), key) + [key]
  {
    assert ([first] + rest + [key])[1..] == rest + [key] && ([first] + rest)[1..] == rest;
    assert first in rest + [key] <==> first == key;
    RecentShape(rest);
    WithoutOfConcat([first], Recent(rest), key);
    if first == key {
      assert Without([first], key) == [] && [] + Recent(rest) == Recent(rest);
      WithoutShape(Recent(rest), key);
    } else {
      Associate(first, Without(Recent(rest), key), key);
    }
  }

  lemma Associate(first: string, keys: seq<string>, key: string)
    ensures [first] + (keys + [key]) == ([first] + keys) + [key]
  {
  }

  lemma {:induction false} RecentOfNext(keys: seq<string>, key: string)
    ensures Recent(keys + [key]) == Without(Recent(keys), key) + [key]
  {
    if keys == [] {
      assert keys + [key] == [key] && Recent([key]) == [key] + Recent([]);
    } else {
      var first, rest := keys[0], keys[1..];
      assert keys == [first] + rest;
      RecentOfNext(rest, key);
      if first in rest {
        RecentAgain(first, rest, key);
      } else {
        RecentAnew(first, rest, key);
      }
    }
  }

  lemma {:induction false} KeysOfNext(trace: seq<Request>, r: Request)
    ensures Keys(trace + [r]) == Keys(trace) + if r.path == "" then [] else [r.key]
  {
    if trace == [] {
      assert trace + [r] == [r] && Keys([r][1..]) == [];
    } else {
      assert (trace + [r])[1..] == trace[1..] + [r] && (trace + [r])[0] == trace[0];
      KeysOfNext(trace[1..], r);
    }
  }

  lemma LastOfMovedOld(limit: nat, older: seq<string>, young: seq<string>, key: string)
    requires key in older && key !in young && Distinct(young) && |young| == limit > 0
    ensures Last(limit, Without(young, key) + [key]) == Last(limit, Without(older + young, key) + [key])
  {
    WithoutOfConcat(older, young, key);
    WithoutShape(young, key);
    LastOfConcat(limit, Without(older, key), young + [key]);
    assert Without(older, key) + (young + [key]) == Without(older + young, key) + [key];
  }

  lemma LastOfMovedYoung(limit: nat, older: seq<string>, young: seq<string>, key: string)
    requires key !in older && Distinct(young) && |young| == limit > 0
    ensures Last(limit, Without(young, key) + [key]) == Last(limit, Without(older + young, key) + [key])
  {
    WithoutOfConcat(older, young, key);
    if key in young {
      WithoutLength(young, key);
    } else {
      WithoutShape(young, key);
    }
    LastOfConcat(limit, older, Without(young, key) + [key]);
    assert older + (Without(young, key) + [key]) == Without(older + young, key) + [key];
  }

  lemma PartsAreDistinct(a: seq<string>, b: seq<string>)
    requires Distinct(a + b)
    ensures Distinct(b) && forall k | k in a :: k !in b
  {
    var all := a + b;
    forall i, j | 0 <= i < j < |b| ensures b[i] != b[j] {
      assert b[i] == all[|a| + i] && b[j] == all[|a| + j];
    }
    forall k | k in a ensures k !in b {
      var i :| 0 <= i < |a| && a[i] == k;
      forall j | 0 <= j < |b| ensures b[j] != k {
        assert all[i] == k && b[j] == all[|a| + j];
      }
    }
  }

  /** Cutting to the limit before or after a key moves to the young end makes no difference. */
  lemma LastOfMoved(limit: nat, keys: seq<string>, key: string)
    requires Distinct(keys)
    ensures Last(limit, Without(Last(limit, keys), key) + [key]) == Last(limit, Without(keys, key) + [key])
  {
    if limit != 0 && |keys| > limit {
      var older, young := keys[..|keys| - limit], Last(limit, keys);
      assert keys == older + young;
      PartsAreDistinct(older, young);
      if key in older {
        LastOfMovedOld(limit, older, young, key);
      } else {
        LastOfMovedYoung(limit, older, young, key);
      }
    }
  }

  lemma LastOfConcat<T>(limit: nat, a: seq<T>, b: seq<T>)
    requires 0 < limit <= |b|
    ensures Last(limit, a + b) == Last(limit, b)
  {
  }

  /** After any trace of loads the recency list has no duplicates and is the key set of the three
      dictionaries, and it is exactly the `limit` most recently requested distinct keys, oldest first. */
  lemma {:induction false} OrderIsMostRecent(limit: nat, trace: seq<Request>)
    ensures InStep(Run(limit, trace))
    ensures Run(limit, trace).order == Last(limit, Recent(Keys(trace)))
  {
    if trace == [] {
    } else {
      var before, r := trace[..|trace| - 1], trace[|trace| - 1];
      OrderIsMostRecent(limit, before);
      assert trace == before + [r];
      KeysOfNext(before, r);
      LoadKeeps(Run(limit, before), limit, r);
      if r.path == "" {
        assert Keys(trace) == Keys(before);
      } else {
        RecentOfNext(Keys(before), r.key);
        RecentShape(Keys(before));
        LastOfMoved(limit, Recent(Keys(before)), r.key);
      }
    }
  }

  /** All recent keys are kept up to the limit, and beyond it the limit youngest; 0 is no limit. */
  lemma OrderIsCut(limit: nat, trace: seq<Request>)
    ensures var order, recent := Run(limit, trace).order, Recent(Keys(trace));
      && (limit == 0 || |recent| <= limit ==> order == recent)
      && (0 < limit < |recent| ==> |order| == limit && order == recent[|recent| - limit..])
  {
    OrderIsMostRecent(limit, trace);
  }

  // ---------- what a load returns ----------

  /** The entry under this key is what this request reads, under the stamp it records. */
  ghost predicate Read(c: Cache, r: Request, key: string) {
    && r.path != "" && r.key == key
    && key in c.bars && key in c.metas && key in c.stamps
    && Parsed(c.bars[key], c.metas[key]) == Parse(ContentOf(r.file), r.path)
    && c.stamps[key] == Stamp(r)
  }

  /** The call reads the file: nothing is cached under its key, or not under the stamp the file has. */
  predicate Misses(c: Cache, r: Request) {
    r.path != "" && r.key !in MaybeReset(c, r.key, r.file).bars
  }

  /** A load reads its own entry if it misses, and leaves every other entry as it was or drops it. */
  lemma LoadOrigin(c: Cache, limit: nat, r: Request, k: string)
    requires InStep(c) && k in Load(c, limit, r).bars
    ensures if k == r.key && Misses(c, r) then Read(Load(c, limit, r), r, k) else SameEntry(c, Load(c, limit, r), k)
  {
    if r.path != "" {
      var checked := MaybeReset(c, r.key, r.file);
      ResetKeeps(c, r.key, r.file);
      if r.key !in checked.bars {
        StoredKeeps(checked, r, k);
        TrimSpares(Stored(checked, r), limit, k);
        assert k != r.key ==> SameEntry(c, checked, k);
      }
    }
  }

  lemma StoredKeeps(c: Cache, r: Request, k: string)
    requires InStep(c) && r.key !in c.bars
    ensures InStep(Stored(c, r))
    ensures k in Stored(c, r).bars && k != r.key ==> SameEntry(c, Stored(c, r), k)
  {
  }

  // ---------- the last call that read ----------

  datatype Reader = NoReader | ReadBy(request: Request)

  predicate MatchesStamp(reader: Reader, file: File) {
    reader.ReadBy? && file.Present? && Stamp(reader.request) == file.mtime
  }

  /** The last call of a trace for this key that read the file. A call does not read if its key is among the
      `limit` most recent ones and the last call that read recorded the stamp the file has. */
  function LastReader(limit: nat, trace: seq<Request>, key: string): Reader
    decreases |trace|
  {
    if trace == [] then NoReader else
      var before, r := trace[..|trace| - 1], trace[|trace| - 1];
      var earlier := LastReader(limit, before, key);
      if r.path == "" || r.key != key then earlier
      else if key in Last(limit, Recent(Keys(before))) && MatchesStamp(earlier, r.file) then earlier
      else ReadBy(r)
  }

  lemma {:induction false} LastReaderIsInTrace(limit: nat, trace: seq<Request>, key: string)
    ensures var reader := LastReader(limit, trace, key);
      reader.ReadBy? ==> reader.request in trace && reader.request.key == key && reader.request.path != ""
    decreases |trace|
  {
    if trace != [] {
      LastReaderIsInTrace(limit, trace[..|trace| - 1], key);
      assert trace == trace[..|trace| - 1] + [trace[|trace| - 1]];
    }
  }

  /** The entry under this key is what this reader read. */
  ghost predicate FromReader(c: Cache, key: string, reader: Reader) {
    key in c.bars ==> reader.ReadBy? && Read(c, reader.request, key)
  }

  /** Whether a call reads can be told from the last one that did. */
  lemma MissesByReader(c: Cache, r: Request, reader: Reader)
    requires InStep(c) && FromReader(c, r.key, reader) && r.path != ""
    ensures Misses(c, r) <==> !(r.key in c.order && MatchesStamp(reader, r.file))
  {
    WithoutShape(c.order, r.key);
  }

  lemma ReaderAfterLoad(c: Cache, limit: nat, r: Request, key: string, earlier: Reader)
    requires InStep(c) && FromReader(c, key, earlier)
    ensures FromReader(Load(c, limit, r), key,
              if r.path == "" || r.key != key || (key in c.order && MatchesStamp(earlier, r.file)) then earlier else ReadBy(r))
  {
    if key in Load(c, limit, r).bars {
      LoadOrigin(c, limit, r, key);
      if key == r.key && r.path != "" {
        MissesByReader(c, r, earlier);
      }
    }
  }

  /** What is cached under a key is what the last call that read its file read, under the stamp it recorded. */
  lemma {:induction false} EntryIsLastRead(limit: nat, trace: seq<Request>, key: string)
    ensures FromReader(Run(limit, trace), key, LastReader(limit, trace, key))
    decreases |trace|
  {
    if trace != [] {
      var before := trace[..|trace| - 1];
      EntryIsLastRead(limit, before, key);
      OrderIsMostRecent(limit, before);
      ReaderAfterLoad(Run(limit, before), limit, trace[|trace| - 1], key, LastReader(limit, before, key));
    }
  }

  // ---------- outdated results ----------

  /** Everywhere but under "path", which keeps the spelling of the call that read the file. */
  ghost predicate SameButPath(a: Dict, b: Dict) {
    forall k | k != "path" :: (k in a <==> k in b) && (k in a ==> a[k] == b[k])
  }

  /** No earlier request recorded, for another content, the stamp the file has now. */
  ghost predicate StampsTellContents(trace: seq<Request>, r: Request) {
    r.file.Present? ==>
      forall i | 0 <= i < |trace| && trace[i].key == r.key && trace[i].path != "" && Stamp(trace[i]) == r.file.mtime ::
        ContentOf(trace[i].file) == r.file.content
  }

  function BarsOf(content: Content): Dict {
    if content.Unusable? then map[] else content.bars
  }

  function MetaOf(content: Content): Dict {
    if content.Unusable? then map[] else content.meta
  }

  /** The contents differ in their bars, or in metadata that is not overwritten when a file is read. */
  ghost predicate OtherContent(a: Content, b: Content) {
    BarsOf(a) != BarsOf(b) ||
    exists k :: k != "path" && k != "symbol_count" &&
      !((k in MetaOf(a) <==> k in MetaOf(b)) && (k in MetaOf(a) && k in MetaOf(b) ==> MetaOf(a)[k] == MetaOf(b)[k]))
  }

  /** The bars or the metadata, other than the spelling of the path, are not what they should be. */
  ghost predicate Outdated(result: Parsed, current: Parsed) {
    result.dataset != current.dataset || !SameButPath(result.meta, current.meta)
  }

  lemma ParseTells(a: Content, path: string, b: Content, other: string)
    ensures Outdated(Parse(a, path), Parse(b, other)) <==> OtherContent(a, b)
  {
    var x, y := Parse(a, path), Parse(b, other);
    assert x.dataset == BarsOf(a) && y.dataset == BarsOf(b);
    forall k | k != "path" && k != "symbol_count"
      ensures k in x.meta <==> k in MetaOf(a)
      ensures k in y.meta <==> k in MetaOf(b)
      ensures k in MetaOf(a) ==> x.meta[k] == MetaOf(a)[k]
      ensures k in MetaOf(b) ==> y.meta[k] == MetaOf(b)[k]
    {
    }
    assert x.meta["symbol_count"] == Count(|BarsOf(a)|) && y.meta["symbol_count"] == Count(|BarsOf(b)|);
  }

  lemma ResultIs(c: Cache, r: Request, reader: Reader)
    requires InStep(c) && FromReader(c, r.key, reader) && r.path != ""
    ensures Result(c, r) ==
      if r.key in c.order && MatchesStamp(reader, r.file)
      then Parse(ContentOf(reader.request.file), reader.request.path)
      else Parse(ContentOf(r.file), r.path)
  {
    MissesByReader(c, r, reader);
  }

  /** In particular a file that carries another stamp than the one recorded when it was last read, or is gone, is
      read again, and so is one whose key is no longer among the most recent ones. */
  lemma ReadAgain(limit: nat, trace: seq<Request>, r: Request, reader: Request)
    requires r.path != "" && LastReader(limit, trace, r.key) == ReadBy(reader)
    requires
      || r.file.Absent?
      || r.file.mtime != (if reader.file.Present? then reader.file.mtime else reader.now)
      || r.key !in Last(limit, Recent(Keys(trace)))
    ensures Result(Run(limit, trace), r) == Parse(ContentOf(r.file), r.path)
  {
    EntryIsLastRead(limit, trace, r.key);
    OrderIsMostRecent(limit, trace);
    ResultIs(Run(limit, trace), r, ReadBy(reader));
  }

  /** And one whose stamp is unchanged and whose key is still among the most recent ones is not. */
  lemma NotReadAgain(limit: nat, trace: seq<Request>, r: Request, reader: Request)
    requires r.path != "" && LastReader(limit, trace, r.key) == ReadBy(reader)
    requires r.file.Present? && r.file.mtime == (if reader.file.Present? then reader.file.mtime else reader.now)
    requires r.key in Last(limit, Recent(Keys(trace)))
    ensures Result(Run(limit, trace), r) == Parse(ContentOf(reader.file), reader.path)
  {
    EntryIsLastRead(limit, trace, r.key);
    OrderIsMostRecent(limit, trace);
    ResultIs(Run(limit, trace), r, ReadBy(reader));
  }

  /** What a read gives: the bars, and the metadata of the file with its own path entry, or else the path as given,
      and always the number of bars. */
  lemma ParseGives(content: Content, path: string)
    ensures var p := Parse(content, path);
      && p.dataset == (if content.Usable? then content.bars else map[])
      && "symbol_count" in p.meta && p.meta["symbol_count"] == Count(|p.dataset|)
      && "path" in p.meta
      && p.meta["path"] == (if content.Usable? && "path" in content.meta then content.meta["path"] else Text(path))
  {
  }

  /** After any trace a load returns outdated bars or metadata if and only if its key is still among the `limit`
      most recent ones, the last call that read the file recorded the stamp the file has now, and what it read
      was another content. */
  lemma ResultIsOutdatedExactly(limit: nat, trace: seq<Request>, r: Request)
    requires r.path != ""
    ensures var reader := LastReader(limit, trace, r.key);
      Outdated(Result(Run(limit, trace), r), Parse(ContentOf(r.file), r.path)) <==>
      && r.key in Last(limit, Recent(Keys(trace)))
      && MatchesStamp(reader, r.file)
      && OtherContent(ContentOf(reader.request.file), ContentOf(r.file))
  {
    var reader, now := LastReader(limit, trace, r.key), ContentOf(r.file);
    EntryIsLastRead(limit, trace, r.key);
    OrderIsMostRecent(limit, trace);
    ResultIs(Run(limit, trace), r, reader);
    if MatchesStamp(reader, r.file) {
      ParseTells(ContentOf(reader.request.file), reader.request.path, now, r.path);
    }
  }

  /** In particular, if no earlier call recorded the present stamp for another content, a load returns what
      reading the file now would give; the "path" entry may be another spelling of the same absolute path. */
  lemma ResultIsCurrent(limit: nat, trace: seq<Request>, r: Request)
    requires r.path != "" && StampsTellContents(trace, r)
    ensures var result, current := Result(Run(limit, trace), r), Parse(ContentOf(r.file), r.path);
      && !Outdated(result, current)
      && (result == current ||
          exists i | 0 <= i < |trace| :: trace[i].key == r.key && result == Parse(ContentOf(r.file), trace[i].path))
  {
    var reader, now := LastReader(limit, trace, r.key), ContentOf(r.file);
    EntryIsLastRead(limit, trace, r.key);
    OrderIsMostRecent(limit, trace);
    ResultIs(Run(limit, trace), r, reader);
    if MatchesStamp(reader, r.file) {
      LastReaderIsInTrace(limit, trace, r.key);
      var i :| 0 <= i < |trace| && trace[i] == reader.request;
      ParseTells(now, reader.request.path, now, r.path);
    }
  }

  /** An instance: a file rewritten within one stamp stays as first read. */
  lemma SameStampServesOldContent(limit: nat, path: string, key: string, mtime: real, first: Content, second: Content,
      now: real, now': real)
    requires path != ""
    ensures Result(Run(limit, [Request(path, key, Present(mtime, first), now)]),
        Request(path, key, Present(mtime, second), now')) == Parse(first, path)
  {
    var r := Request(path, key, Present(mtime, first), now);
    assert [r][..0] == [] && [r][0] == r;
    assert Run(limit, [r]) == Load(EMPTY, limit, r) == Trim(Stored(EMPTY, r), limit) == Stored(EMPTY, r);
  }

  class ADVStore {
    var barCache: map<string, Dict>
    var barMetaCache: map<string, Dict>
    var barCacheMtime: map<string, real>
    var barCacheOrder: seq<string>
    const barCacheLimit: nat // 0 when no limit is configured

    function Contents(): Cache
      reads this
    {
      Cache(barCache, barMetaCache, barCacheMtime, barCacheOrder)
    }

    ghost predicate Valid()
      reads this
    {
      InStep(Contents())
    }

    constructor (limit: nat)
      ensures Valid() && Contents() == EMPTY && barCacheLimit == limit
    {
      barCache, barMetaCache, barCacheMtime, barCacheOrder := map[], map[], map[], [];
      barCacheLimit := limit;
    }

    method DropBarCacheEntry(cacheKey: string)
      modifies this
      ensures Contents() == Drop(old(Contents()), cacheKey)
    {
      barCache := barCache - {cacheKey};
      barMetaCache := barMetaCache - {cacheKey};
      barCacheMtime := barCacheMtime - {cacheKey};
      barCacheOrder := Without(barCacheOrder, cacheKey);
    }

    method TrimBarCache()
      modifies this
      ensures Contents() == Trim(old(Contents()), barCacheLimit)
    {
      if barCacheLimit == 0 {
        return;
      }
      while |barCacheOrder| > barCacheLimit
        invariant Trim(Contents(), barCacheLimit) == Trim(old(Contents()), barCacheLimit)
        decreases |barCacheOrder|
      {
        var oldest := barCacheOrder[0];
        WithoutIsNoLonger(barCacheOrder[1..], oldest);
        barCacheOrder := barCacheOrder[1..];
        DropBarCacheEntry(oldest);
      }
    }

    method MaybeResetBarCache(cacheKey: string, file: File)
      modifies this
      ensures Contents() == MaybeReset(old(Contents()), cacheKey, file)
    {
      if cacheKey !in barCache {
        return;
      }
      if file.Absent? {
        DropBarCacheEntry(cacheKey);
        return;
      }
      if cacheKey !in barCacheMtime || file.mtime != barCacheMtime[cacheKey] {
        DropBarCacheEntry(cacheKey);
      }
    }

    /** `_load_bar_dataset_locked`; the file and the clock do not change during the locked call. */
    method LoadBarDatasetLocked(r: Request) returns (result: Parsed)
      modifies this
      ensures Contents() == Load(old(Contents()), barCacheLimit, r)
      ensures result == Result(old(Contents()), r)
      ensures old(Valid()) ==> Valid()
    {
      if InStep(Contents()) {
        LoadKeeps(Contents(), barCacheLimit, r);
      }
      if r.path == "" {
        return Parsed(map[], map[]);
      }
      MaybeResetBarCache(r.key, r.file);
      if r.key in barCache {
        barCacheOrder := Without(barCacheOrder, r.key);
        barCacheOrder := barCacheOrder + [r.key];
        return Parsed(barCache[r.key], if r.key in barMetaCache then barMetaCache[r.key] else map[]);
      }
      result := Parse(ContentOf(r.file), r.path);
      barCache := barCache[r.key := result.dataset];
      barMetaCache := barMetaCache[r.key := result.meta];
      barCacheMtime := barCacheMtime[r.key := Stamp(r)];
      barCacheOrder := barCacheOrder + [r.key];
      TrimBarCache();
    }
  }
}
