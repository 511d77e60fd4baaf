/** The static file cache as a value: what is known of each path, the paths of the loaded files in load order, and
    what every operation does to them. The object in StaticCache is proved to follow it. */
module CacheSpec {
  import opened Bytes

  type Path = seq<byte>

  datatype Timespec = Timespec(sec: int, nsec: int)

  function TsCompare(a: Timespec, b: Timespec): int {
    if a.sec < b.sec then -1
    else if a.sec > b.sec then 1
    else if a.nsec < b.nsec then -1
    else if a.nsec > b.nsec then 1
    else 0
  }

  /** The comparison is that of two numbers of seconds, then of nanoseconds, and tells every two times apart. */
  lemma TsCompareIs(a: Timespec, b: Timespec)
    ensures TsCompare(a, b) == 0 <==> a == b
    ensures TsCompare(a, b) < 0 <==> a.sec < b.sec || (a.sec == b.sec && a.nsec < b.nsec)
    ensures TsCompare(a, b) > 0 <==> b.sec < a.sec || (b.sec == a.sec && b.nsec < a.nsec)
  {
  }

  lemma JustChecked(t: Timespec)
    ensures TsCompare(t, t.(sec := t.sec - 2)) > 0
  {
  }

  /** A file's mapping. MapFailed is the value mmap returns when it fails, which the source takes for a mapping. */
  datatype Mapping = Unmapped | Mapped | MapFailed

  datatype FileInfo = FileInfo(mapping: Mapping, fd: int, length: int, lastException: Option<int>,
                               lastModified: Timespec, lastCheck: Timespec)

  const EPOCH := Timespec(0, 0)
  const NEW_INFO := FileInfo(Unmapped, -1, 0, None, EPOCH, EPOCH)

  predicate IsLoaded(info: FileInfo) { info.mapping != Unmapped || info.fd >= 0 }

  /** What open, fstat and mmap answer; the null pointer the source tests for is Unmapped. */
  datatype Disk = CannotOpen(errno: int) | Opened(fd: nat, regular: bool, size: nat, mtime: Timespec, mapping: Mapping)

  /** What stat answers. */
  datatype Stat = NoStat(errno: int) | Stat(mtime: Timespec, size: nat)

  const EISDIR := 21

  predicate LoadsOk(disk: Disk, maxMmapSize: int) {
    disk.Opened? && disk.regular && (disk.size <= maxMmapSize ==> disk.mapping != Unmapped)
  }

  /** Why a load fails. */
  function LoadError(disk: Disk): int {
    if disk.CannotOpen? then disk.errno else if !disk.regular then EISDIR else 0
  }

  /** Counters are 32 bits wide, and so is the length of a file, which is signed. */
  function Wrap32(n: nat): (r: nat)
    ensures r < 0x1_0000_0000 && (n < 0x1_0000_0000 ==> r == n)
  {
    n % 0x1_0000_0000
  }

  function ToInt32(n: nat): (r: int)
    ensures -0x8000_0000 <= r < 0x8000_0000 && (n < 0x8000_0000 <==> r == n)
  {
    if Wrap32(n) < 0x8000_0000 then Wrap32(n) else Wrap32(n) - 0x1_0000_0000
  }

  /** What a load leaves of a file's information, whether it succeeds or not. */
  function AfterLoad(info: FileInfo, disk: Disk, now: Timespec, maxMmapSize: int): (r: FileInfo)
    ensures !IsLoaded(info) ==> (IsLoaded(r) <==> LoadsOk(disk, maxMmapSize))
    ensures LoadsOk(disk, maxMmapSize) ==> IsLoaded(r)
    ensures r.lastException == None <==> LoadsOk(disk, maxMmapSize)
    ensures r.lastCheck == now
  {
    if LoadsOk(disk, maxMmapSize) then
      var small := disk.size <= maxMmapSize;
      FileInfo(if small then disk.mapping else Unmapped, if small then -1 else disk.fd, ToInt32(disk.size), None,
               disk.mtime, now)
    else info.(lastException := Some(LoadError(disk)), lastCheck := now)
  }

  function AfterUnload(info: FileInfo): FileInfo { info.(mapping := Unmapped, fd := -1) }

  datatype Staleness = Recent | Unchanged | Missing | Unloaded | Changed

  /** What a handler finds out about its file: nothing if it was checked within two seconds. */
  function StalenessOf(info: FileInfo, now: Timespec, stat: Stat): Staleness {
    if TsCompare(info.lastCheck, now.(sec := now.sec - 2)) > 0 then Recent
    else if !IsLoaded(info) then Unloaded
    else if stat.NoStat? then Missing
    else if TsCompare(info.lastModified, stat.mtime) != 0 || info.length != stat.size then Changed
    else Unchanged
  }

  /** The source keeps the length in an int: a file that has not changed since it was loaded is found unchanged if and
      only if it is smaller than 2^31 bytes; a larger one is reloaded at every check. */
  lemma LengthIsKept(info: FileInfo, disk: Disk, loaded: Timespec, now: Timespec, maxMmapSize: int)
    requires LoadsOk(disk, maxMmapSize)
    requires TsCompare(loaded, now.(sec := now.sec - 2)) <= 0
    ensures StalenessOf(AfterLoad(info, disk, loaded, maxMmapSize), now, Stat(disk.mtime, disk.size)) == Unchanged
            <==> disk.size < 0x8000_0000
  {
  }

  // ---------------------------------------------------------------- the cache

  datatype File = File(info: FileInfo, refCount: int)

  datatype Settings = Settings(minCapacity: int, maxCapacity: int, maxPurgePerCycle: int, maxMmapSize: int)

  /** `order` holds the paths of the loaded files, and `history` that of every load that succeeded. */
  datatype Cache = Cache(files: map<Path, File>, order: seq<Path>, history: seq<Path>, capacity: int,
                         loads: nat, requests: nat, now: Timespec, limits: Settings)

  const TARGET_CACHE_HIT_RATIO := 50

  /** s without the first p. */
  function Minus(s: seq<Path>, p: Path): seq<Path> {
    if s == [] then [] else if s[0] == p then s[1..] else [s[0]] + Minus(s[1..], p)
  }

  function Noted(c: Cache, p: Path, info: FileInfo): Cache
    requires p in c.files
  {
    c.(files := c.files[p := c.files[p].(info := info)])
  }

  function Loading(c: Cache, p: Path, disk: Disk): Cache
    requires p in c.files
  {
    var c' := Noted(c, p, AfterLoad(c.files[p].info, disk, c.now, c.limits.maxMmapSize));
    if LoadsOk(disk, c.limits.maxMmapSize) then
      c'.(order := c.order + [p], history := c.history + [p], loads := Wrap32(c.loads + 1))
    else c'
  }

  /** A file that nobody refers to goes with its mapping. */
  function Unloading(c: Cache, p: Path): Cache
    requires p in c.files
  {
    var c' := c.(order := Minus(c.order, p));
    if c.files[p].refCount == 0 then c'.(files := c.files - {p})
    else Noted(c', p, AfterUnload(c.files[p].info))
  }

  /** reloadIfStale, for a file with a reference. */
  function Refreshed(c: Cache, p: Path, stat: Stat, disk: Disk): (r: Cache)
    requires p in c.files && c.files[p].refCount != 0
    ensures p in r.files
  {
    var info := c.files[p].info;
    var checked := info.(lastCheck := c.now);
    match StalenessOf(info, c.now, stat)
    case Recent => c
    case Unloaded => Loading(c, p, disk)
    case Missing => Unloading(Noted(c, p, checked.(lastException := Some(stat.errno))), p)
    case Changed => Loading(Unloading(Noted(c, p, checked), p), p, disk)
    case Unchanged => Noted(c, p, checked)
  }

  /** What bringing a file up to date comes to, in plain comparisons: `i` and `j` are what is known of the file
      before and after, `all` and `all'` the list, `rest` the list without the file. A recent check changes nothing.
      A loaded file the disk still has as it was only has its check noted, and no other; one the disk does not have
      any more is unloaded with the error; in every other case the file ends loaded behind all others, or unloaded
      with the error. */
  ghost predicate Plainly<T>(i: FileInfo, j: FileInfo, all: seq<T>, all': seq<T>, rest: seq<T>, file: T, p: Path,
                             history: seq<Path>, history': seq<Path>, stat: Stat, disk: Disk, now: Timespec,
                             maxMmapSize: int)
  {
    var recent := i.lastCheck.sec > now.sec - 2 || (i.lastCheck.sec == now.sec - 2 && i.lastCheck.nsec > now.nsec);
    var loaded := i.mapping != Unmapped || i.fd >= 0;
    var same := stat.Stat? && stat.mtime == i.lastModified && stat.size == i.length;
    var loads := disk.Opened? && disk.regular && (disk.size <= maxMmapSize ==> disk.mapping != Unmapped);
    && (recent ==> j == i && all' == all && history' == history)
    && (!recent && loaded && stat.Stat? ==>
          (same <==> j == i.(lastCheck := now) && all' == all && history' == history))
    && (!recent && loaded && stat.NoStat? ==>
          && j == i.(lastCheck := now, lastException := Some(stat.errno), mapping := Unmapped, fd := -1)
          && all' == rest && history' == history)
    && (!recent && !(loaded && (stat.NoStat? || same)) ==>
          && j.lastCheck == now
          && if loads then
               && (if disk.size <= maxMmapSize then j.mapping == disk.mapping && j.fd == -1
                   else j.mapping == Unmapped && j.fd == disk.fd)
               && j.lastException == None && j.lastModified == disk.mtime
               && (disk.size < 0x8000_0000 ==> j.length == disk.size)
               && all' == rest + [file] && history' == history + [p]
             else
               && j.mapping == Unmapped && j.fd < 0
               && j.lastException == Some(if disk.CannotOpen? then disk.errno else if !disk.regular then 21 else 0)
               && all' == rest && history' == history)
  }

  lemma RefreshedPlainly(c: Cache, p: Path, stat: Stat, disk: Disk)
    requires p in c.files && c.files[p].refCount != 0
    ensures var r, loaded := Refreshed(c, p, stat, disk), IsLoaded(c.files[p].info);
            Plainly(c.files[p].info, r.files[p].info, c.order, r.order,
                    if loaded then Minus(c.order, p) else c.order, p, p, c.history, r.history,
                    stat, disk, c.now, c.limits.maxMmapSize)
  {
    hide Minus;
    TsCompareIs(c.files[p].info.lastCheck, c.now.(sec := c.now.sec - 2));
    if stat.Stat? { TsCompareIs(c.files[p].info.lastModified, stat.mtime); }
    hide TsCompare;
  }

  function WithRefs(c: Cache, p: Path, n: int): Cache
    requires p in c.files
  {
    c.(files := c.files[p := c.files[p].(refCount := c.files[p].refCount + n)])
  }

  /** The handler of a file runs: a file that ends loaded is served, which takes one more reference. */
  function Handled(c: Cache, p: Path, stat: Stat, disk: Disk): Cache
    requires p in c.files && c.files[p].refCount != 0
  {
    var r := Refreshed(c, p, stat, disk);
    if IsLoaded(r.files[p].info) then WithRefs(r, p, 1).(requests := Wrap32(r.requests + 1)) else r
  }

  function Added(c: Cache, p: Path): Cache { c.(files := c.files[p := File(NEW_INFO, 0)]) }

  function Created(c: Cache, p: Path): Cache { WithRefs(if p in c.files then c else Added(c, p), p, 1) }

  /** A reference is destroyed; the last one takes an unloaded file with it. */
  function Released(c: Cache, p: Path): Cache
    requires p in c.files
  {
    var f := c.files[p];
    if f.refCount == 1 && !IsLoaded(f.info) then c.(files := c.files - {p}) else WithRefs(c, p, -1)
  }

  /** The files at the front are unloaded, n of them. */
  function Popped(c: Cache, n: nat): Cache
    decreases n
  {
    if n == 0 || c.order == [] || c.order[0] !in c.files then c else Popped(Unloading(c, c.order[0]), n - 1)
  }

  function PurgeCount(loaded: int, capacity: int, most: int): nat {
    if loaded <= capacity || most <= 0 then 0 else if loaded - capacity <= most then loaded - capacity else most
  }

  function Shrunk(capacity: int, min: int): int {
    var c := capacity - capacity / 8;
    if c < min then min else c
  }

  function GrownCapacity(capacity: int, max: int, loads: nat, requests: nat): int {
    if Wrap32(loads * 2) <= capacity then capacity
    else
      var c := if Wrap32(loads * TARGET_CACHE_HIT_RATIO) > requests then capacity + capacity / 8 else capacity;
      if c > max then max else c
  }

  predicate EnoughHits(c: Cache) { Wrap32(c.loads * TARGET_CACHE_HIT_RATIO) <= c.requests }

  function PurgedUpTo(c: Cache, most: int): Cache { Popped(c, PurgeCount(|c.order|, c.capacity, most)) }

  function Purged(c: Cache): Cache { PurgedUpTo(c, c.limits.maxPurgePerCycle) }

  lemma PurgeStep(c: Cache, most: int)
    requires c.order != [] && c.order[0] in c.files && |c.order| > c.capacity && most > 0
    ensures PurgedUpTo(c, most) == PurgedUpTo(Unloading(c, c.order[0]), most - 1)
  {
  }

  lemma PurgeEnds(c: Cache, most: int)
    requires |c.order| <= c.capacity || most <= 0
    ensures PurgedUpTo(c, most) == c
  {
  }

  function Ticked(c: Cache, now: Timespec): Cache {
    var c' := c.(now := now);
    var r := if EnoughHits(c) then Purged(c'.(capacity := Shrunk(c.capacity, c.limits.minCapacity))) else c';
    r.(loads := 0, requests := 0)
  }

  const DEFAULT_LIMITS := Settings(32, 1024, 128, 1024 * 1024 * 4)

  function NewCache(now: Timespec): Cache {
    Ticked(Cache(map[], [], [], 128, 0, 0, EPOCH, DEFAULT_LIMITS), now)
  }

  // ---------------------------------------------------------------- runs

  datatype Op =
    Create(path: Path) | Copy(i: nat) | Drop(i: nat) | Handle(i: nat, stat: Stat, disk: Disk) | Tick(now: Timespec)

  /** The cache, and the paths of the references in existence. */
  datatype World = World(cache: Cache, handles: seq<Path>)

  /** Where in the history a path was loaded last. */
  function LastLoad(history: seq<Path>, p: Path): (i: int)
    ensures -1 <= i < |history|
  {
    if history == [] then -1
    else if history[|history| - 1] == p then |history| - 1
    else LastLoad(history[..|history| - 1], p)
  }

  /** The loaded files are in the order of their last loads. */
  predicate InLoadOrder(order: seq<Path>, history: seq<Path>) {
    && (forall i :: 0 <= i < |order| ==> LastLoad(history, order[i]) >= 0)
    && (forall i, j :: 0 <= i < j < |order| ==> LastLoad(history, order[i]) < LastLoad(history, order[j]))
  }

  /** What is loaded is listed, once, in load order, and carries no error. */
  predicate Listed(c: Cache) {
    && InLoadOrder(c.order, c.history)
    && (forall p :: p in c.order ==> p in c.files)
    && (forall p :: p in c.files ==> (IsLoaded(c.files[p].info) <==> p in c.order))
    && (forall p :: p in c.order ==> c.files[p].info.lastException == None)
  }

  /** Every reference is to a file, which counts exactly the references to it. */
  predicate Counted(c: Cache, refs: multiset<Path>) {
    && (forall p :: p in refs ==> p in c.files)
    && (forall p :: p in c.files ==> c.files[p].refCount == refs[p])
  }

  /** Every file is loaded or referenced. */
  predicate Kept(c: Cache) {
    forall p :: p in c.files ==> IsLoaded(c.files[p].info) || c.files[p].refCount != 0
  }

  predicate WithinLimits(c: Cache) {
    && 1 <= c.limits.minCapacity <= c.capacity <= c.limits.maxCapacity && 0 <= c.limits.maxPurgePerCycle
  }

  predicate CacheSound(c: Cache, refs: multiset<Path>) {
    Listed(c) && Counted(c, refs) && Kept(c) && WithinLimits(c)
  }

  predicate Sound(w: World) { CacheSound(w.cache, multiset(w.handles)) }

  function Step(w: World, op: Op): World
    requires Counted(w.cache, multiset(w.handles))
  {
    match op
    case Create(p) => World(Created(w.cache, p), w.handles + [p])
    case Copy(i) =>
      if i >= |w.handles| then w
      else
        assert w.handles[i] in multiset(w.handles);
        World(WithRefs(w.cache, w.handles[i], 1), w.handles + [w.handles[i]])
    case Drop(i) =>
      if i >= |w.handles| then w
      else
        assert w.handles[i] in multiset(w.handles);
        World(Released(w.cache, w.handles[i]), w.handles[..i] + w.handles[i + 1..])
    case Handle(i, stat, disk) =>
      if i >= |w.handles| then w
      else
        var p := w.handles[i];
        assert p in multiset(w.handles);
        var served := IsLoaded(Refreshed(w.cache, p, stat, disk).files[p].info);
        World(Handled(w.cache, p, stat, disk), if served then w.handles + [p] else w.handles)
    case Tick(now) => World(Ticked(w.cache, now), w.handles)
  }

  function Run(w: World, ops: seq<Op>): (r: World)
    requires Sound(w)
    ensures Sound(r)
    decreases |ops|
  {
    if ops == [] then w
    else
      StepSound(w, ops[0]);
      Run(Step(w, ops[0]), ops[1..])
  }

  lemma StepIs(w: World, op: Op)
    requires Sound(w)
    ensures Counted(w.cache, multiset(w.handles))
    ensures op.Create? ==> Step(w, op) == World(Created(w.cache, op.path), w.handles + [op.path])
    ensures op.Tick? ==> Step(w, op) == World(Ticked(w.cache, op.now), w.handles)
    ensures op.Copy? || op.Drop? || op.Handle? ==>
      if op.i >= |w.handles| then Step(w, op) == w
      else
        var c, hs, p := w.cache, w.handles, w.handles[op.i];
        && p in c.files && c.files[p].refCount != 0
        && (op.Copy? ==> Step(w, op) == World(WithRefs(c, p, 1), hs + [p]))
        && (op.Drop? ==> Step(w, op) == World(Released(c, p), hs[..op.i] + hs[op.i + 1..]))
        && (op.Handle? ==>
              var served := IsLoaded(Refreshed(c, p, op.stat, op.disk).files[p].info);
              Step(w, op) == World(Handled(c, p, op.stat, op.disk), if served then hs + [p] else hs))
  {
    CountsHandles(w.cache, w.handles);
    hide CacheSound, Created, WithRefs, Released, Handled, Ticked, Refreshed, IsLoaded;
  }

  lemma RunUnfolds(w: World, ops: seq<Op>)
    requires Sound(w) && ops != []
    ensures Counted(w.cache, multiset(w.handles)) && Sound(Step(w, ops[0]))
    ensures Run(w, ops) == Run(Step(w, ops[0]), ops[1..])
  {
    StepSound(w, ops[0]);
  }

  lemma RunEnds(w: World, ops: seq<Op>)
    requires Sound(w) && ops == []
    ensures Run(w, ops) == w
  {
  }

  // ---------------------------------------------------------------- every step keeps the invariant

  lemma LastLoadAppend(history: seq<Path>, p: Path, q: Path)
    ensures LastLoad(history + [p], q) == if q == p then |history| else LastLoad(history, q)
  {
    assert (history + [p])[..|history|] == history;
  }

  lemma InLoadOrderAppend(order: seq<Path>, history: seq<Path>, p: Path)
    requires InLoadOrder(order, history) && p !in order
    ensures InLoadOrder(order + [p], history + [p])
  {
    forall q ensures LastLoad(history + [p], q) == if q == p then |history| else LastLoad(history, q) {
      LastLoadAppend(history, p, q);
    }
    hide LastLoad;
    assert forall i :: 0 <= i < |order| ==> order[i] in order;
  }

  lemma {:induction false} MinusIs(s: seq<Path>, p: Path, k: nat)
    requires k < |s| && s[k] == p && p !in s[..k]
    ensures Minus(s, p) == s[..k] + s[k + 1..]
  {
    if k > 0 {
      assert s[0] == s[..k][0] && s[1..][..k - 1] == s[..k][1..];
      MinusIs(s[1..], p, k - 1);
    }
  }

  /** Taking a path out of a list in load order takes out its one occurrence and keeps the order. */
  lemma MinusInLoadOrder(order: seq<Path>, history: seq<Path>, p: Path)
    requires InLoadOrder(order, history)
    ensures InLoadOrder(Minus(order, p), history)
    ensures forall q :: q in Minus(order, p) <==> q in order && q != p
  {
    hide LastLoad;
    if p in order {
      var k :| 0 <= k < |order| && order[k] == p;
      OnlyOnce(order, history, k);
      hide InLoadOrder;
      MinusIs(order, p, k);
      ThinnedInLoadOrder(order, history, k);
      ThinnedMembers(order, k);
    } else {
      MinusNothing(order, p);
    }
  }

  lemma OnlyOnce(order: seq<Path>, history: seq<Path>, k: nat)
    requires InLoadOrder(order, history) && k < |order|
    ensures order[k] !in order[..k] && order[k] !in order[k + 1..]
  {
    hide LastLoad;
  }

  lemma ThinnedInLoadOrder(order: seq<Path>, history: seq<Path>, k: nat)
    requires InLoadOrder(order, history) && k < |order|
    ensures InLoadOrder(order[..k] + order[k + 1..], history)
  {
    hide LastLoad;
    var r := order[..k] + order[k + 1..];
    assert forall i :: 0 <= i < |r| ==> r[i] == order[if i < k then i else i + 1];
  }

  lemma ThinnedMembers(s: seq<Path>, k: nat)
    requires k < |s| && s[k] !in s[..k] && s[k] !in s[k + 1..]
    ensures forall q :: q in s[..k] + s[k + 1..] <==> q in s && q != s[k]
  {
    assert s == s[..k] + [s[k]] + s[k + 1..];
  }

  lemma {:induction false} MinusNothing(s: seq<Path>, p: Path)
    requires p !in s
    ensures Minus(s, p) == s
  {
    if s != [] { MinusNothing(s[1..], p); }
  }

  lemma LoadingListed(c: Cache, p: Path, disk: Disk)
    requires Listed(c) && p in c.files && !IsLoaded(c.files[p].info)
    ensures Listed(Loading(c, p, disk))
  {
    hide InLoadOrder, AfterLoad, LoadsOk;
    InLoadOrderAppend(c.order, c.history, p);
  }

  /** A file is unloaded, also one that has just been given an error. */
  lemma UnloadingListed(c: Cache, p: Path, info: FileInfo)
    requires Listed(c) && p in c.files && (IsLoaded(info) <==> IsLoaded(c.files[p].info))
    ensures Listed(Unloading(Noted(c, p, info), p))
  {
    hide InLoadOrder;
    MinusInLoadOrder(c.order, c.history, p);
    hide Minus;
  }

  lemma NotedItself(c: Cache, p: Path)
    requires p in c.files
    ensures Noted(c, p, c.files[p].info) == c
  {
  }

  /** Only the information about one file has changed, and nothing but the list and the load count besides. */
  predicate Touched(r: Cache, c: Cache, p: Path)
    requires p in c.files
  {
    && p in r.files && r.files == c.files[p := r.files[p]] && r.files[p].refCount == c.files[p].refCount
    && r.limits == c.limits && r.capacity == c.capacity && r.requests == c.requests && r.now == c.now
  }

  lemma RefreshedListed(c: Cache, p: Path, stat: Stat, disk: Disk)
    requires Listed(c) && p in c.files && c.files[p].refCount != 0
    ensures Listed(Refreshed(c, p, stat, disk)) && Touched(Refreshed(c, p, stat, disk), c, p)
  {
    var info := c.files[p].info;
    var checked := info.(lastCheck := c.now);
    hide InLoadOrder, TsCompare, AfterLoad, Minus, LoadsOk;
    match StalenessOf(info, c.now, stat)
    case Recent =>
    case Unloaded => LoadingListed(c, p, disk);
    case Missing => UnloadingListed(c, p, checked.(lastException := Some(stat.errno)));
    case Changed => ChangedListed(c, p, checked, disk);
    case Unchanged => NotedListed(c, p, checked);
  }

  lemma NotedListed(c: Cache, p: Path, info: FileInfo)
    requires Listed(c) && p in c.files && (IsLoaded(info) <==> IsLoaded(c.files[p].info))
    requires info.lastException == c.files[p].info.lastException
    ensures Listed(Noted(c, p, info))
  {
    hide InLoadOrder, IsLoaded;
  }

  lemma ChangedListed(c: Cache, p: Path, checked: FileInfo, disk: Disk)
    requires Listed(c) && p in c.files && c.files[p].refCount != 0
    requires IsLoaded(checked) <==> IsLoaded(c.files[p].info)
    ensures Listed(Loading(Unloading(Noted(c, p, checked), p), p, disk))
  {
    UnloadingListed(c, p, checked);
    hide Listed, Minus;
    LoadingListed(Unloading(Noted(c, p, checked), p), p, disk);
  }

  /** What is left of a cache when files are unloaded. */
  predicate LessThan(r: Cache, c: Cache) {
    && r.limits == c.limits && r.capacity == c.capacity && r.now == c.now && r.history == c.history
    && (forall p :: p in r.files ==> p in c.files && r.files[p].refCount == c.files[p].refCount)
    && (forall p :: p in c.files && c.files[p].refCount != 0 ==> p in r.files)
  }

  lemma PoppedOnce(c: Cache)
    requires Listed(c) && c.order != []
    ensures var p := c.order[0];
            && p in c.files && Listed(Unloading(c, p)) && Unloading(c, p).order == c.order[1..]
            && LessThan(Unloading(c, p), c)
            && (Kept(c) ==> Kept(Unloading(c, p)))
  {
    hide InLoadOrder;
    var p := c.order[0];
    assert p in c.order;
    NotedItself(c, p);
    UnloadingListed(c, p, c.files[p].info);
    hide Listed;
  }

  lemma {:induction false} PoppedListed(c: Cache, n: nat)
    requires Listed(c) && n <= |c.order|
    ensures Listed(Popped(c, n)) && Popped(c, n).order == c.order[n..] && LessThan(Popped(c, n), c)
    ensures Kept(c) ==> Kept(Popped(c, n))
    decreases n
  {
    hide Listed, Unloading, Kept, LessThan;
    LessThanItself(c);
    if n > 0 {
      PoppedOnce(c);
      PoppedListed(Unloading(c, c.order[0]), n - 1);
      LessThanTransitive(Popped(Unloading(c, c.order[0]), n - 1), Unloading(c, c.order[0]), c);
    }
  }

  lemma LessThanItself(c: Cache)
    ensures LessThan(c, c)
  {
  }

  lemma LessThanTransitive(a: Cache, b: Cache, c: Cache)
    requires LessThan(a, b) && LessThan(b, c)
    ensures LessThan(a, c)
  {
  }

  /** The files, after the first n of the list have been unloaded. */
  function PoppedFiles(files: map<Path, File>, order: seq<Path>, n: nat): map<Path, File>
    requires n <= |order|
  {
    map p | p in files && !(p in order[..n] && files[p].refCount == 0) ::
      if p in order[..n] then files[p].(info := AfterUnload(files[p].info)) else files[p]
  }

  lemma {:induction false} PoppedIs(c: Cache, n: nat)
    requires Listed(c) && n <= |c.order|
    ensures Popped(c, n) == c.(order := c.order[n..], files := PoppedFiles(c.files, c.order, n))
    decreases n
  {
    if n > 0 {
      var p, order := c.order[0], c.order;
      PoppedOnce(c);
      OnlyOnce(order, c.history, 0);
      PoppedFilesStep(c, n);
      UnloadingKeeps(c, p);
      hide *;
      PoppedIs(Unloading(c, p), n - 1);
      PoppedUnfolds(c, n);
      assert order[1..][n - 1..] == order[n..];
    } else {
      PoppedFilesNone(c);
    }
  }

  lemma UnloadingKeeps(c: Cache, p: Path)
    requires p in c.files
    ensures Unloading(c, p) == c.(order := Unloading(c, p).order, files := Unloading(c, p).files)
  {
  }

  lemma PoppedUnfolds(c: Cache, n: nat)
    requires n > 0 && c.order != [] && c.order[0] in c.files
    ensures Popped(c, n) == Popped(Unloading(c, c.order[0]), n - 1)
  {
  }

  lemma PoppedFilesNone(c: Cache)
    ensures PoppedFiles(c.files, c.order, 0) == c.files
  {
  }

  lemma PoppedFilesStep(c: Cache, n: nat)
    requires 0 < n <= |c.order| && c.order[0] in c.files && c.order[0] !in c.order[1..]
    ensures PoppedFiles(Unloading(c, c.order[0]).files, c.order[1..], n - 1) == PoppedFiles(c.files, c.order, n)
  {
    hide AfterUnload, Minus;
    var p, order := c.order[0], c.order;
    assert order[..n] == [p] + order[1..][..n - 1];
    assert forall q :: q in order[1..][..n - 1] ==> q in order[1..];
  }

  lemma ShrunkWithin(capacity: int, min: int, max: int)
    requires 1 <= min <= capacity <= max
    ensures min <= Shrunk(capacity, min) <= capacity
  {
  }

  lemma OldestFirst(order: seq<Path>, history: seq<Path>, n: nat)
    requires InLoadOrder(order, history) && n <= |order|
    ensures forall p, q :: p in order[..n] && q in order[n..] ==> LastLoad(history, p) < LastLoad(history, q)
  {
    hide LastLoad;
    forall p, q | p in order[..n] && q in order[n..] ensures LastLoad(history, p) < LastLoad(history, q) {
      var i :| 0 <= i < n && order[i] == p;
      var j :| n <= j < |order| && order[j] == q;
    }
  }

  function EvictedBy(c: Cache): nat {
    if EnoughHits(c) then
      PurgeCount(|c.order|, Shrunk(c.capacity, c.limits.minCapacity), c.limits.maxPurgePerCycle)
    else 0
  }

  /** The numbers of a tick: with 50 requests for each load, on 32 bits, an eighth is taken off the capacity but not
      below the minimum, and as many files go from the front as there are then too many, up to the limit of one
      cycle. */
  ghost predicate TickedPlainly<T>(loads: nat, requests: nat, limits: Settings, before: int, capacity: int,
                                   all: seq<T>, all': seq<T>)
  {
    var enough := (loads * 50) % 0x1_0000_0000 <= requests;
    var shrunk := before - before / 8;
    var over := |all| - capacity;
    && capacity == (if !enough then before else if shrunk < limits.minCapacity then limits.minCapacity else shrunk)
    && (!enough || over <= 0 ==> all' == all)
    && (enough && over > 0 ==>
          var n := if over > limits.maxPurgePerCycle then limits.maxPurgePerCycle else over;
          0 <= n <= |all| && all' == all[n..])
  }

  lemma TickNumbers<T>(c: Cache, all: seq<T>)
    requires WithinLimits(c) && |all| == |c.order|
    ensures var capacity := if EnoughHits(c) then Shrunk(c.capacity, c.limits.minCapacity) else c.capacity;
            && EvictedBy(c) <= |all|
            && TickedPlainly(c.loads, c.requests, c.limits, c.capacity, capacity, all, all[EvictedBy(c)..])
  {
  }

  /** A tick evicts exactly the first files of the list: those that were loaded longest ago. */
  lemma TickEvictsOldest(c: Cache, now: Timespec)
    requires Listed(c) && WithinLimits(c)
    ensures var r, n := Ticked(c, now), EvictedBy(c);
            && n <= |c.order| && r.order == c.order[n..]
            && TickedPlainly(c.loads, c.requests, c.limits, c.capacity, r.capacity, c.order, r.order)
            && forall p, q :: p in c.order[..n] && q in r.order ==> LastLoad(c.history, p) < LastLoad(c.history, q)
  {
    TickListed(c, now);
    TickNumbers(c, c.order);
    OldestFirst(c.order, c.history, EvictedBy(c));
    hide *;
  }

  /** Neither the capacity nor the clock nor the counters matter for the list. */
  lemma SettingsKeep(c: Cache, capacity: int, now: Timespec, loads: nat, requests: nat)
    ensures var r := c.(capacity := capacity, now := now, loads := loads, requests := requests);
            (Listed(c) ==> Listed(r)) && (Kept(c) ==> Kept(r))
  {
  }

  lemma TickListed(c: Cache, now: Timespec)
    requires Listed(c) && WithinLimits(c)
    ensures var r, n := Ticked(c, now), EvictedBy(c);
            && n <= |c.order| && r.order == c.order[n..] && Listed(r) && r.limits == c.limits
            && r.capacity == (if EnoughHits(c) then Shrunk(c.capacity, c.limits.minCapacity) else c.capacity)
            && LessThan(r.(capacity := c.capacity, now := c.now), c) && (Kept(c) ==> Kept(r))
  {
    var c' := c.(now := now, capacity := Shrunk(c.capacity, c.limits.minCapacity));
    ShrunkWithin(c.capacity, c.limits.minCapacity, c.limits.maxCapacity);
    SettingsKeep(c, c'.capacity, now, c.loads, c.requests);
    var n := PurgeCount(|c.order|, c'.capacity, c.limits.maxPurgePerCycle);
    PoppedListed(c', n);
    var r := Popped(c', n);
    SettingsKeep(r, r.capacity, r.now, 0, 0);
    SettingsKeep(c, c.capacity, now, 0, 0);
    hide InLoadOrder, Shrunk, Wrap32, Popped, Listed, Kept;
  }

  lemma StepSound(w: World, op: Op)
    requires Sound(w)
    ensures Sound(Step(w, op))
  {
    StepIs(w, op);
    hide CacheSound, Counted, Created, WithRefs, Released, Handled, Ticked, Refreshed, IsLoaded, Step;
    var c, hs := w.cache, w.handles;
    match op
    case Create(p) =>
      CreatedSound(c, multiset(hs), p);
      MoreHandles(hs, p);
    case Copy(i) => if i < |hs| { CopySound(c, hs, i); }
    case Drop(i) => if i < |hs| { DropSound(c, hs, i); }
    case Handle(i, stat, disk) => if i < |hs| { HandleSound(c, hs, i, stat, disk); }
    case Tick(now) => TickSound(c, multiset(hs), now);
  }

  lemma MoreHandles(hs: seq<Path>, p: Path)
    ensures multiset(hs + [p]) == multiset(hs) + multiset{p}
  {
  }

  lemma FewerHandles(hs: seq<Path>, i: nat)
    requires i < |hs|
    ensures hs[i] in multiset(hs) && multiset(hs[..i] + hs[i + 1..]) == multiset(hs) - multiset{hs[i]}
  {
    assert hs == hs[..i] + [hs[i]] + hs[i + 1..];
  }

  lemma CopySound(c: Cache, hs: seq<Path>, i: nat)
    requires CacheSound(c, multiset(hs)) && i < |hs| && hs[i] in c.files
    ensures CacheSound(WithRefs(c, hs[i], 1), multiset(hs + [hs[i]]))
  {
    hide *;
    HeldSound(c, multiset(hs), hs[i]);
    MoreHandles(hs, hs[i]);
  }

  lemma DropSound(c: Cache, hs: seq<Path>, i: nat)
    requires CacheSound(c, multiset(hs)) && i < |hs| && hs[i] in c.files
    ensures CacheSound(Released(c, hs[i]), multiset(hs[..i] + hs[i + 1..]))
  {
    hide *;
    FewerHandles(hs, i);
    ReleasedSound(c, multiset(hs), hs[i]);
  }

  lemma HandleSound(c: Cache, hs: seq<Path>, i: nat, stat: Stat, disk: Disk)
    requires CacheSound(c, multiset(hs)) && i < |hs| && hs[i] in c.files && c.files[hs[i]].refCount != 0
    ensures var served := IsLoaded(Refreshed(c, hs[i], stat, disk).files[hs[i]].info);
            CacheSound(Handled(c, hs[i], stat, disk), multiset(if served then hs + [hs[i]] else hs))
  {
    hide *;
    FewerHandles(hs, i);
    HandledSound(c, multiset(hs), hs[i], stat, disk);
    MoreHandles(hs, hs[i]);
  }

  lemma CountsHandles(c: Cache, handles: seq<Path>)
    requires CacheSound(c, multiset(handles))
    ensures Counted(c, multiset(handles))
    ensures forall i :: 0 <= i < |handles| ==> handles[i] in c.files && c.files[handles[i]].refCount != 0
  {
    hide Listed, Kept, WithinLimits;
    forall i | 0 <= i < |handles| ensures handles[i] in multiset(handles) {
      assert handles[i] in handles;
    }
  }

  lemma CreatedSound(c: Cache, refs: multiset<Path>, p: Path)
    requires CacheSound(c, refs)
    ensures CacheSound(Created(c, p), refs + multiset{p})
  {
    if p in c.files {
      HeldSound(c, refs, p);
      hide CacheSound;
    } else {
      NewListed(c, p);
      NewCounted(c, refs, p);
      hide Listed, Counted;
    }
  }

  lemma NewListed(c: Cache, p: Path)
    requires Listed(c) && p !in c.files
    ensures Listed(Created(c, p))
  {
    assert !IsLoaded(NEW_INFO);
    hide InLoadOrder, IsLoaded;
  }

  lemma NewCounted(c: Cache, refs: multiset<Path>, p: Path)
    requires Counted(c, refs) && p !in c.files
    ensures Counted(Created(c, p), refs + multiset{p})
  {
  }

  lemma HeldSound(c: Cache, refs: multiset<Path>, p: Path)
    requires CacheSound(c, refs) && p in c.files
    ensures CacheSound(WithRefs(c, p, 1), refs + multiset{p})
  {
    hide InLoadOrder;
  }

  lemma ReleasedSound(c: Cache, refs: multiset<Path>, p: Path)
    requires CacheSound(c, refs) && p in refs
    ensures CacheSound(Released(c, p), refs - multiset{p})
  {
    CountsIt(c, refs, p);
    ReleasedListed(c, p);
    ReleasedCounted(c, refs, p);
    ReleasedKept(c, p);
    hide Listed, Counted, Kept, IsLoaded;
  }

  lemma ReleasedListed(c: Cache, p: Path)
    requires Listed(c) && p in c.files
    ensures Listed(Released(c, p))
  {
    hide InLoadOrder, IsLoaded;
  }

  lemma ReleasedCounted(c: Cache, refs: multiset<Path>, p: Path)
    requires Counted(c, refs) && p in refs && p in c.files
    ensures Counted(Released(c, p), refs - multiset{p})
  {
    hide IsLoaded;
  }

  lemma ReleasedKept(c: Cache, p: Path)
    requires Kept(c) && p in c.files
    ensures Kept(Released(c, p))
  {
    hide IsLoaded;
  }

  lemma HandledSound(c: Cache, refs: multiset<Path>, p: Path, stat: Stat, disk: Disk)
    requires CacheSound(c, refs) && p in refs
    ensures p in c.files && c.files[p].refCount != 0
    ensures CacheSound(Handled(c, p, stat, disk),
                       if IsLoaded(Refreshed(c, p, stat, disk).files[p].info) then refs + multiset{p} else refs)
  {
    hide CacheSound, Refreshed, WithRefs, Touched, Listed, Counted, Kept, IsLoaded, Wrap32;
    CountsIt(c, refs, p);
    var r := Refreshed(c, p, stat, disk);
    RefreshedListed(c, p, stat, disk);
    TouchedSound(r, c, refs, p);
    if IsLoaded(r.files[p].info) {
      HeldSound(r, refs, p);
      RequestCounted(WithRefs(r, p, 1), refs + multiset{p}, Wrap32(r.requests + 1));
    }
  }

  lemma CountsIt(c: Cache, refs: multiset<Path>, p: Path)
    requires CacheSound(c, refs) && p in refs
    ensures Listed(c) && p in c.files && c.files[p].refCount != 0
  {
    hide Listed;
  }

  lemma RequestCounted(c: Cache, refs: multiset<Path>, n: nat)
    requires CacheSound(c, refs)
    ensures CacheSound(c.(requests := n), refs)
  {
    hide InLoadOrder;
  }

  lemma TouchedSound(r: Cache, c: Cache, refs: multiset<Path>, p: Path)
    requires CacheSound(c, refs) && p in c.files && c.files[p].refCount != 0 && Touched(r, c, p) && Listed(r)
    ensures CacheSound(r, refs)
  {
    hide Listed, IsLoaded;
  }

  lemma TickSound(c: Cache, refs: multiset<Path>, now: Timespec)
    requires CacheSound(c, refs)
    ensures CacheSound(Ticked(c, now), refs)
  {
    TickListed(c, now);
    ShrunkWithin(c.capacity, c.limits.minCapacity, c.limits.maxCapacity);
    hide Ticked, Listed, Shrunk, EvictedBy;
  }

  /** The start: the first tick belongs to the construction. */
  lemma NewSound(now: Timespec)
    ensures Sound(World(NewCache(now), [])) && NewCache(now).capacity == 112
    ensures NewCache(now).files == map[] && NewCache(now).now == now
  {
  }
}
