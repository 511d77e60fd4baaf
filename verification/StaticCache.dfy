/** The static file cache: reference-counted file objects, a map that owns them, and an intrusive doubly linked
    list of the loaded ones in order of loading, from whose front files are unloaded. */
module StaticCache {
  import opened Bytes
  import opened CacheSpec

  class LoadedStaticFile {
    const path: Path
    var next: LoadedStaticFile?
    var prev: LoadedStaticFile?
    var info: FileInfo
    var refCount: int

    constructor (path: Path)
      ensures this.path == path && next == null && prev == null && info == NEW_INFO && refCount == 0
      ensures info == FileInfo(Unmapped, -1, 0, None, Timespec(0, 0), Timespec(0, 0))
    {
      this.path := path;
      next, prev, info, refCount := null, null, NEW_INFO, 0;
    }

    predicate Loaded()
      reads this`info
    {
      IsLoaded(info)
    }

    lemma LoadedIs()
      ensures Loaded() == IsLoaded(info)
    {
    }
  }

  /** What loading and unloading a file changes: the file's information, the list, and the record of loads. */
  datatype View = View(info: FileInfo, order: seq<LoadedStaticFile>, history: seq<Path>, loads: nat)

  ghost function Loads(v: View, f: LoadedStaticFile, disk: Disk, now: Timespec, maxMmapSize: int): View {
    var v' := v.(info := AfterLoad(v.info, disk, now, maxMmapSize));
    if LoadsOk(disk, maxMmapSize) then
      v'.(order := v.order + [f], history := v.history + [f.path], loads := Wrap32(v.loads + 1))
    else v'
  }

  lemma LoadsIs(v: View, f: LoadedStaticFile, disk: Disk, now: Timespec, maxMmapSize: int, r: View)
    requires r.info == AfterLoad(v.info, disk, now, maxMmapSize)
    requires var ok := LoadsOk(disk, maxMmapSize);
             && r.order == (if ok then v.order + [f] else v.order)
             && r.history == (if ok then v.history + [f.path] else v.history)
             && r.loads == (if ok then Wrap32(v.loads + 1) else v.loads)
    ensures r == Loads(v, f, disk, now, maxMmapSize)
  {
    hide AfterLoad, LoadsOk, Wrap32;
  }

  /** `k` is the file's place in the list. */
  ghost function Unloads(v: View, f: LoadedStaticFile, k: nat): View
    requires k < |v.order|
  {
    v.(info := AfterUnload(v.info), order := Without(v.order, k))
  }

  lemma UnloadsIs(v: View, f: LoadedStaticFile, k: nat, r: View)
    requires k < |v.order|
    requires r.info == AfterUnload(v.info) && r.order == Without(v.order, k) && r.history == v.history
             && r.loads == v.loads
    ensures r == Unloads(v, f, k)
  {
  }

  /** What reloadIfStale does, in each of its five cases. */
  ghost function Refreshes(v: View, f: LoadedStaticFile, k: nat, stat: Stat, disk: Disk, now: Timespec,
                           maxMmapSize: int): View
    requires IsLoaded(v.info) ==> k < |v.order|
  {
    var checked := v.info.(lastCheck := now);
    match StalenessOf(v.info, now, stat)
    case Recent => v
    case Unchanged => v.(info := checked)
    case Missing => Unloads(v.(info := checked.(lastException := Some(stat.errno))), f, k)
    case Unloaded => Loads(v, f, disk, now, maxMmapSize)
    case Changed => Loads(Unloads(v.(info := checked), f, k), f, disk, now, maxMmapSize)
  }

  lemma RefreshesRecent(v: View, f: LoadedStaticFile, k: nat, stat: Stat, disk: Disk, now: Timespec, maxMmapSize: int)
    requires StalenessOf(v.info, now, stat) == Recent && (IsLoaded(v.info) ==> k < |v.order|)
    ensures Refreshes(v, f, k, stat, disk, now, maxMmapSize) == v
  {
  }

  /** Afterwards the file was checked within two seconds, and if it had to be loaded, it is as the disk allows. */
  lemma RefreshesChecks(v: View, f: LoadedStaticFile, k: nat, stat: Stat, disk: Disk, now: Timespec, maxMmapSize: int)
    requires IsLoaded(v.info) ==> k < |v.order|
    ensures var r := Refreshes(v, f, k, stat, disk, now, maxMmapSize);
            && TsCompare(r.info.lastCheck, now.(sec := now.sec - 2)) > 0
            && (StalenessOf(v.info, now, stat) in {Unloaded, Changed} ==>
                  (IsLoaded(r.info) <==> LoadsOk(disk, maxMmapSize)))
  {
    hide AfterLoad, LoadsOk, Without;
    JustChecked(now);
  }

  lemma RefreshesPlainly(v: View, f: LoadedStaticFile, k: nat, stat: Stat, disk: Disk, now: Timespec, maxMmapSize: int)
    requires IsLoaded(v.info) ==> k < |v.order|
    ensures var r := Refreshes(v, f, k, stat, disk, now, maxMmapSize);
            Plainly(v.info, r.info, v.order, r.order,
                    if IsLoaded(v.info) then Without(v.order, k) else v.order, f, f.path, v.history, r.history,
                    stat, disk, now, maxMmapSize)
  {
    hide Without;
    TsCompareIs(v.info.lastCheck, now.(sec := now.sec - 2));
    if stat.Stat? { TsCompareIs(v.info.lastModified, stat.mtime); }
    hide TsCompare;
  }

  ghost predicate Distinct<T>(s: seq<T>) {
    forall i, j :: 0 <= i < j < |s| ==> s[i] != s[j]
  }

  /** s without its element at i. */
  function Without<T>(s: seq<T>, i: nat): seq<T>
    requires i < |s|
  {
    s[..i] + s[i + 1..]
  }

  /** Files linked both ways in this order, with nothing before the first or behind the last. */
  ghost predicate Chain(s: seq<LoadedStaticFile>)
    reads s`next, s`prev
  {
    && (s != [] ==> s[0].prev == null && s[|s| - 1].next == null)
    && (forall i {:trigger s[i].prev} :: 1 <= i < |s| ==> s[i].prev == s[i - 1])
    && (forall i {:trigger s[i].next} :: 0 <= i < |s| - 1 ==> s[i].next == s[i + 1])
  }

  lemma Neighbours(s: seq<LoadedStaticFile>, k: nat)
    requires Distinct(s) && Chain(s) && k < |s|
    ensures s[k].prev == (if k == 0 then null else s[k - 1])
    ensures s[k].next == (if k == |s| - 1 then null else s[k + 1])
    ensures (s[k] == s[0] <==> k == 0) && (s[k] == s[|s| - 1] <==> k == |s| - 1)
  {
  }

  lemma WithoutEnds<T>(s: seq<T>, k: nat)
    requires Distinct(s) && k < |s|
    ensures Distinct(Without(s, k)) && |Without(s, k)| == |s| - 1
    ensures |s| > 1 ==>
      && Without(s, k)[0] == (if k == 0 then s[1] else s[0])
      && Without(s, k)[|s| - 2] == (if k == |s| - 1 then s[|s| - 2] else s[|s| - 1])
  {
  }

  lemma WithoutMembers<T>(s: seq<T>, k: nat)
    requires k < |s| && Distinct(s)
    ensures forall x :: x in Without(s, k) ==> x in s && x != s[k]
    ensures forall x :: x in s && x != s[k] ==> x in Without(s, k)
  {
    forall x | x in s && x != s[k] ensures x in Without(s, k) {
      var i :| 0 <= i < |s| && s[i] == x;
      assert x == Without(s, k)[if i < k then i else i - 1];
    }
  }

  /** The elements among the first i of `s` that `refs` does not have. */
  ghost function Unreferenced<T>(refs: multiset<T>, s: seq<T>, i: nat): set<T>
    requires i <= |s|
  {
    if i == 0 then {}
    else Unreferenced(refs, s, i - 1) + if refs[s[i - 1]] == 0 then {s[i - 1]} else {}
  }

  ghost function Paths(s: seq<LoadedStaticFile>): (r: seq<Path>)
    ensures |r| == |s| && forall i :: 0 <= i < |s| ==> r[i] == s[i].path
  {
    if s == [] then [] else Paths(s[..|s| - 1]) + [s[|s| - 1].path]
  }

  lemma PathsAppend(s: seq<LoadedStaticFile>, f: LoadedStaticFile)
    ensures Paths(s + [f]) == Paths(s) + [f.path]
  {
    assert (s + [f])[..|s|] == s;
  }

  ghost predicate PathsDiffer(s: seq<LoadedStaticFile>) {
    forall i, j :: 0 <= i < j < |s| ==> s[i].path != s[j].path
  }

  lemma PathsWithout(s: seq<LoadedStaticFile>, k: nat)
    requires k < |s| && PathsDiffer(s)
    ensures Paths(Without(s, k)) == Minus(Paths(s), s[k].path)
  {
    hide Paths, Minus;
    MinusIs(Paths(s), s[k].path, k);
    PathsThinned(s, k);
  }

  lemma PathsThinned(s: seq<LoadedStaticFile>, k: nat)
    requires k < |s|
    ensures Paths(Without(s, k)) == Without(Paths(s), k)
  {
    hide *;
    WithoutAt(s, k);
    WithoutAt(Paths(s), k);
    var a, b := Paths(Without(s, k)), Without(Paths(s), k);
    forall i | 0 <= i < |a| ensures a[i] == b[i] {
      var j := if i < k then i else i + 1;
      assert a[i] == Without(s, k)[i].path == s[j].path == Paths(s)[j];
    }
  }

  lemma WithoutAt<T>(s: seq<T>, k: nat)
    requires k < |s|
    ensures |Without(s, k)| == |s| - 1
    ensures forall i :: 0 <= i < |s| - 1 ==> Without(s, k)[i] == s[if i < k then i else i + 1]
  {
  }

  /** The cache, with what `v` says about the file at `p`, the list and the loads. */
  ghost function Put(c: Cache, p: Path, v: View): Cache
    requires p in c.files
  {
    Noted(c, p, v.info).(order := Paths(v.order), history := v.history, loads := v.loads)
  }

  lemma NotedPut(c: Cache, p: Path, v: View, info: FileInfo)
    requires p in c.files
    ensures Noted(Put(c, p, v), p, info) == Put(c, p, v.(info := info))
  {
    hide Paths;
  }

  lemma LoadsPut(c: Cache, f: LoadedStaticFile, v: View, disk: Disk)
    requires f.path in c.files
    ensures Loading(Put(c, f.path, v), f.path, disk)
            == Put(c, f.path, Loads(v, f, disk, c.now, c.limits.maxMmapSize))
  {
    hide AfterLoad, LoadsOk, Wrap32, Paths;
    PathsAppend(v.order, f);
  }

  lemma UnloadsPut(c: Cache, f: LoadedStaticFile, v: View, k: nat)
    requires f.path in c.files && k < |v.order| && v.order[k] == f && PathsDiffer(v.order)
    ensures var r := Put(c, f.path, Unloads(v, f, k));
            Unloading(Put(c, f.path, v), f.path)
            == if c.files[f.path].refCount == 0 then r.(files := c.files - {f.path}) else r
  {
    hide Paths, PathsDiffer, Without, Minus;
    PathsWithout(v.order, k);
  }

  /** Refreshing a file is the same in terms of the object's list as in terms of paths. */
  lemma RefreshesPut(c: Cache, f: LoadedStaticFile, v: View, k: nat, stat: Stat, disk: Disk)
    requires f.path in c.files && c.files[f.path].refCount != 0
    requires IsLoaded(v.info) ==> k < |v.order| && v.order[k] == f && PathsDiffer(v.order)
    ensures Refreshed(Put(c, f.path, v), f.path, stat, disk)
            == Put(c, f.path, Refreshes(v, f, k, stat, disk, c.now, c.limits.maxMmapSize))
  {
    hide Paths, PathsDiffer, TsCompare, Loading, Unloading, Loads, Unloads;
    var p, checked := f.path, v.info.(lastCheck := c.now);
    match StalenessOf(v.info, c.now, stat)
    case Recent =>
    case Unchanged => NotedPut(c, p, v, checked);
    case Unloaded => LoadsPut(c, f, v, disk);
    case Missing =>
      var v' := v.(info := checked.(lastException := Some(stat.errno)));
      NotedPut(c, p, v, v'.info);
      UnloadsPut(c, f, v', k);
    case Changed =>
      var v' := v.(info := checked);
      NotedPut(c, p, v, checked);
      UnloadsPut(c, f, v', k);
      LoadsPut(c, f, Unloads(v', f, k), disk);
  }

  class StaticFileManager {
    var maxMmapSize: int
    var cache: map<Path, LoadedStaticFile>
    var firstToFree: LoadedStaticFile?
    var lastToFree: LoadedStaticFile?
    var requestsCounter: nat
    var loadsCounter: nat
    var capacity: int
    var minCapacity: int
    var maxCapacity: int
    var maxPurgePerCycle: int
    var nLoaded: int
    var currTime: Timespec

    /** Allocated and not yet deleted; deleted; the loaded files in order of last load; the FileRefs in existence. */
    ghost var live: set<LoadedStaticFile>
    ghost var freed: set<LoadedStaticFile>
    ghost var order: seq<LoadedStaticFile>
    ghost var refs: multiset<LoadedStaticFile>
    /** The path of every load that succeeded. */
    ghost var history: seq<Path>

    /** The intrusive list is exactly `order`, linked both ways. */
    ghost predicate ListOk()
      reads this`firstToFree, this`lastToFree, this`order, order`next, order`prev
    {
      && (order == [] ==> firstToFree == null && lastToFree == null)
      && (order != [] ==> firstToFree == order[0] && lastToFree == order[|order| - 1])
      && Chain(order)
    }

    /** The list holds nLoaded different files. */
    ghost predicate Listed()
      reads this`firstToFree, this`lastToFree, this`order, this`nLoaded, order`next, order`prev
    {
      Distinct(order) && ListOk() && nLoaded == |order|
    }

    /** The map holds exactly the live objects, each under its own path. */
    ghost predicate Owned()
      reads this`cache, this`live, this`freed
    {
      && (forall f :: f in live ==> f.path in cache && cache[f.path] == f)
      && (forall p :: p in cache ==> cache[p] in live && cache[p].path == p)
      && live !! freed
    }

    /** The listed files are exactly the loaded ones. */
    ghost predicate Tracked()
      reads this`live, this`order, live`info
    {
      && (forall f :: f in order ==> f in live)
      && (forall f :: f in live ==> (f.Loaded() <==> f in order))
    }

    /** No loaded file carries an error, `except` left out. */
    ghost predicate Clean(except: set<LoadedStaticFile>)
      reads this`live, live`info
    {
      forall f :: f in live && f !in except && f.Loaded() ==> f.info.lastException == None
    }

    /** Every FileRef is to a live file, which counts it. */
    ghost predicate Counted()
      reads this`live, this`refs, live`refCount
    {
      && (forall f :: f in live ==> f.refCount == refs[f])
      && (forall f :: f in refs ==> f in live)
    }

    ghost predicate Limits()
      reads this`minCapacity, this`capacity, this`maxCapacity, this`maxPurgePerCycle
    {
      1 <= minCapacity <= capacity <= maxCapacity && 0 <= maxPurgePerCycle
    }

    /** What does not depend on the list. */
    ghost predicate Ledger(except: set<LoadedStaticFile>)
      reads this`cache, this`live, this`freed, this`refs
      reads this`minCapacity, this`capacity, this`maxCapacity, this`maxPurgePerCycle, live`info, live`refCount
    {
      Owned() && Clean(except) && Counted() && Limits()
    }

    /** Everything but the shape of the list. */
    ghost predicate Booked(except: set<LoadedStaticFile>)
      reads this`order, this`cache, this`live, this`freed, this`refs
      reads this`minCapacity, this`capacity, this`maxCapacity, this`maxPurgePerCycle, live`info, live`refCount
    {
      Ledger(except) && Tracked()
    }

    /** The listed files are exactly the loaded ones, this one left out. */
    ghost predicate TrackedBut(file: LoadedStaticFile)
      reads this`live, this`order, live`info
    {
      && (forall f :: f in order ==> f in live)
      && (forall f :: f in live && f != file ==> (f.Loaded() <==> f in order))
    }

    lemma TrackedAll(file: LoadedStaticFile)
      requires TrackedBut(file) && file in live && (file.Loaded() <==> file in order)
      ensures Tracked()
    {
    }

    lemma NotListed(file: LoadedStaticFile)
      requires Tracked() && file in live
      ensures (file.Loaded() <==> file in order) && TrackedBut(file)
    {
    }

    ghost predicate Valid()
      reads this`firstToFree, this`lastToFree, this`order, this`nLoaded, this`cache, this`live, this`freed, this`refs
      reads this`minCapacity, this`capacity, this`maxCapacity, this`maxPurgePerCycle, order`next, order`prev,
            live`info, live`refCount
    {
      Listed() && Booked({})
    }

    /** Valid, except that this one file may be loaded and carry an error. */
    ghost predicate ValidBut(file: LoadedStaticFile)
      reads this`firstToFree, this`lastToFree, this`order, this`nLoaded, this`cache, this`live, this`freed, this`refs
      reads this`minCapacity, this`capacity, this`maxCapacity, this`maxPurgePerCycle, order`next, order`prev,
            live`info, live`refCount
    {
      Listed() && Booked({file})
    }

    lemma ValidIsValidBut(file: LoadedStaticFile)
      requires Valid()
      ensures ValidBut(file)
    {
    }

    /** Between operations no file is both unloaded and unreferenced. */
    ghost predicate Settled()
      reads this`live, this`refs, live`info
    {
      forall f :: f in live ==> f.Loaded() || refs[f] > 0
    }

    ghost function ViewOf(f: LoadedStaticFile): View
      reads f`info, this`order, this`history, this`loadsCounter
    {
      View(f.info, order, history, loadsCounter)
    }

    /** The place of a loaded file in the list. */
    ghost predicate IsAt(f: LoadedStaticFile, k: nat)
      reads this`order
    {
      k < |order| && order[k] == f
    }

    /** The first tick belongs to the construction: it sets the clock and takes an eighth off the capacity. */
    constructor (now: Timespec)
      ensures Valid() && Settled() && live == {} && freed == {} && refs == multiset{} && order == []
      ensures maxMmapSize == 4194304 && capacity == 112
      ensures minCapacity == 32 && maxCapacity == 1024 && maxPurgePerCycle == 128
      ensures currTime == now && Model() == NewCache(now)
    {
      maxMmapSize := 1024 * 1024 * 4;
      cache := map[];
      firstToFree, lastToFree := null, null;
      requestsCounter, loadsCounter := 0, 0;
      capacity, minCapacity, maxCapacity, maxPurgePerCycle := 128, 32, 1024, 128;
      nLoaded := 0;
      currTime := EPOCH;
      live, freed, order, refs, history := {}, {}, [], multiset{}, [];
      new;
      hide *;
      EmptyIsValid(now);
      ghost var c := EvictedBy(Model());
      TimerCB(now);
      NewSound(now);
      ModelParts();
      assert live == freed == {} by { EvictedNone(c); }
    }

    lemma EmptyIsValid(now: Timespec)
      requires cache == map[] && firstToFree == lastToFree == null && nLoaded == 0
               && requestsCounter == loadsCounter == 0
      requires live == freed == {} && order == [] && refs == multiset{} && history == [] && currTime == EPOCH
      requires capacity == 128 && Settings(minCapacity, maxCapacity, maxPurgePerCycle, maxMmapSize) == DEFAULT_LIMITS
      ensures Valid() && Settled() && Ticked(Model(), now) == NewCache(now)
    {
      assert Files() == map[];
      hide Ticked;
    }

    // -------------------------------------------------------------- the abstract cache

    ghost function Files(): map<Path, File>
      reads this`cache, cache.Values`info, cache.Values`refCount
    {
      map p | p in cache :: File(cache[p].info, cache[p].refCount)
    }

    /** What this object is an implementation of. */
    ghost function Model(): Cache
      reads this, cache.Values`info, cache.Values`refCount
    {
      Cache(Files(), Paths(order), history, capacity, loadsCounter, requestsCounter, currTime,
            Settings(minCapacity, maxCapacity, maxPurgePerCycle, maxMmapSize))
    }

    ghost predicate Has(f: LoadedStaticFile)
      reads this`cache
    {
      f.path in cache && cache[f.path] == f
    }

    lemma FileAt(f: LoadedStaticFile)
      requires Has(f)
      ensures f.path in Files() && Files()[f.path] == File(f.info, f.refCount)
    {
    }

    /** Only one file has changed. */
    twostate lemma FileChanged(f: LoadedStaticFile)
      requires old(Owned()) && cache == old(cache) && Has(f)
      requires forall p :: p in cache && cache[p] != f ==>
                 cache[p].info == old(cache[p].info) && cache[p].refCount == old(cache[p].refCount)
      ensures f.path in old(Files()) && Files() == old(Files())[f.path := File(f.info, f.refCount)]
    {
    }

    /** One file has been deleted. */
    twostate lemma FileGone(f: LoadedStaticFile)
      requires old(Owned()) && old(Has(f)) && cache == old(cache) - {f.path}
      requires forall p :: p in cache ==>
                 cache[p].info == old(cache[p].info) && cache[p].refCount == old(cache[p].refCount)
      ensures f.path in old(Files()) && Files() == old(Files()) - {f.path}
    {
    }

    // -------------------------------------------------------------- loading and unloading

    /** Open or map the file; an errno if that fails, and then nothing changes. */
    method DoLoad(f: LoadedStaticFile, disk: Disk) returns (error: Option<int>)
      modifies f`info, this`loadsCounter
      ensures error == if LoadsOk(disk, maxMmapSize) then None else Some(LoadError(disk))
      ensures error.Some? ==> f.info == old(f.info) && loadsCounter == old(loadsCounter)
      ensures error.None? ==>
        && loadsCounter == Wrap32(old(loadsCounter) + 1)
        && f.info == old(f.info).(mapping := if disk.size <= maxMmapSize then disk.mapping else Unmapped,
                                  fd := if disk.size <= maxMmapSize then -1 else disk.fd,
                                  length := ToInt32(disk.size), lastModified := disk.mtime)
    {
      if disk.CannotOpen? { return Some(disk.errno); }
      if !disk.regular { return Some(EISDIR); }
      var mapping, fd := Unmapped, disk.fd as int;
      if disk.size <= maxMmapSize {
        mapping := disk.mapping;
        if mapping == Unmapped { return Some(0); }
        fd := -1;
      }
      f.info := f.info.(mapping := mapping, fd := fd, length := ToInt32(disk.size), lastModified := disk.mtime);
      loadsCounter := Wrap32(loadsCounter + 1);
      return None;
    }

    /** Put a file at the end of the list. */
    method Link(file: LoadedStaticFile)
      requires Listed() && file !in order
      modifies this`nLoaded, this`firstToFree, this`lastToFree, this`order
      modifies file`next, file`prev, order`next
      ensures order == old(order) + [file] && Listed()
    {
      nLoaded := nLoaded + 1;
      ghost var n := |order|;
      if n > 0 { assert order[n - 1] in order; }
      file.prev := lastToFree;
      file.next := null;
      if lastToFree != null { lastToFree.next := file; }
      lastToFree := file;
      if firstToFree == null { firstToFree := file; }
      order := order + [file];
      assert forall i :: 0 <= i < n ==> order[i] == old(order)[i];
    }

    lemma EndsAndChain()
      requires Distinct(order) && Chain(order) && nLoaded == |order|
      requires order == [] ==> firstToFree == null && lastToFree == null
      requires order != [] ==> firstToFree == order[0] && lastToFree == order[|order| - 1]
      ensures Listed()
    {
    }

    /** Take a file out of the list, wherever it is. */
    method Unlink(file: LoadedStaticFile, ghost k: nat)
      requires Listed() && k < |order| && order[k] == file
      modifies this`nLoaded, this`firstToFree, this`lastToFree, this`order
      modifies order`next, order`prev
      ensures order == Without(old(order), k) && Listed()
    {
      Neighbours(order, k);
      WithoutEnds(order, k);
      hide Chain, Distinct, Without;
      nLoaded := nLoaded - 1;
      if file.next == null { assert file == lastToFree; }
      if file.prev == null { assert file == firstToFree; }
      if file == firstToFree { firstToFree := file.next; }
      if file == lastToFree { lastToFree := file.prev; }
      ghost var rest := Without(order, k);
      assert rest == [] ==> firstToFree == null && lastToFree == null;
      assert rest != [] ==> firstToFree == rest[0] && lastToFree == rest[|rest| - 1];
      hide *;
      Splice(file, order, k);
      order := rest;
      EndsAndChain();
    }

    /** Join the neighbours of a file. */
    static method Splice(file: LoadedStaticFile, ghost s: seq<LoadedStaticFile>, ghost k: nat)
      requires Distinct(s) && Chain(s) && k < |s| && s[k] == file
      modifies s`next, s`prev
      ensures Chain(Without(s, k))
    {
      if k > 0 { assert file.prev == s[k - 1] && s[k - 1] in s; }
      if k < |s| - 1 { assert file.next == s[k + 1] && s[k + 1] in s; }
      if file.prev != null { file.prev.next := file.next; }
      if file.next != null { file.next.prev := file.prev; }
    }

    /** Load a file and put it at the end of the list; if that fails, the file carries the error instead. */
    method Load(file: LoadedStaticFile, disk: Disk)
      requires Valid() && file in live && !file.Loaded()
      modifies this`loadsCounter, this`history, this`nLoaded, this`firstToFree, this`lastToFree, this`order
      modifies file`info, file`next, file`prev, order`next
      ensures Valid() && (old(Settled()) ==> Settled())
      ensures ViewOf(file) == Loads(old(ViewOf(file)), file, disk, currTime, maxMmapSize)
      ensures file.Loaded() <==> LoadsOk(disk, maxMmapSize)
    {
      hide *;
      ValidParts();
      NotListed(file);
      ViewIs(file);
      var error := Try(file, disk);
      Enter(file, error.None?);
      ValidFromParts();
      ViewIs(file);
      LoadsIs(old(ViewOf(file)), file, disk, currTime, maxMmapSize, ViewOf(file));
    }

    lemma ViewIs(f: LoadedStaticFile)
      ensures ViewOf(f) == View(f.info, order, history, loadsCounter)
    {
    }

    lemma ValidParts()
      requires Valid()
      ensures Listed() && Ledger({}) && Tracked()
    {
    }

    lemma ValidFromParts()
      requires Listed() && Ledger({}) && Tracked()
      ensures Valid()
    {
    }

    /** The list's part of load. */
    method Enter(file: LoadedStaticFile, ok: bool)
      requires Listed() && TrackedBut(file) && file in live && file !in order && file.Loaded() == ok
      modifies this`history, this`nLoaded, this`firstToFree, this`lastToFree, this`order
      modifies file`next, file`prev, order`next
      ensures Listed() && Tracked()
      ensures order == if ok then old(order) + [file] else old(order)
      ensures history == if ok then old(history) + [file.path] else old(history)
    {
      hide *;
      if ok {
        history := history + [file.path];
        Append(file);
      } else {
        TrackedAll(file);
      }
    }

    /** The part of load before the list: what is known of the file afterwards. */
    method Try(file: LoadedStaticFile, disk: Disk) returns (error: Option<int>)
      requires Ledger({}) && TrackedBut(file) && file in live && !file.Loaded()
      modifies this`loadsCounter, file`info
      ensures Ledger({}) && TrackedBut(file) && (old(Settled()) ==> Settled())
      ensures error.None? <==> LoadsOk(disk, maxMmapSize)
      ensures file.Loaded() <==> LoadsOk(disk, maxMmapSize)
      ensures file.info == AfterLoad(old(file.info), disk, currTime, maxMmapSize)
      ensures loadsCounter == if LoadsOk(disk, maxMmapSize) then Wrap32(old(loadsCounter) + 1) else old(loadsCounter)
    {
      hide Owned, Counted, Limits, ToInt32, Wrap32;
      error := DoLoad(file, disk);
      file.info := file.info.(lastCheck := currTime, lastException := error);
    }

    /** Put a loaded file on the list. */
    method Append(file: LoadedStaticFile)
      requires Listed() && TrackedBut(file) && file in live && file !in order && file.Loaded()
      modifies this`nLoaded, this`firstToFree, this`lastToFree, this`order
      modifies file`next, file`prev, order`next
      ensures Listed() && Tracked() && order == old(order) + [file]
    {
      hide Listed;
      Link(file);
    }

    /** Unmap or close a file and take it out of the list; a file nobody refers to is deleted. */
    method Unload(file: LoadedStaticFile) returns (ghost k: nat)
      requires ValidBut(file) && file in live && file.Loaded()
      modifies this`nLoaded, this`firstToFree, this`lastToFree, this`order, this`cache, this`live, this`freed
      modifies file`info, order`next, order`prev
      ensures Valid() && (old(Settled()) ==> Settled())
      ensures k < |old(order)| && old(order)[k] == file && ViewOf(file) == Unloads(old(ViewOf(file)), file, k)
      ensures forall g :: g in order ==> g in old(order)
      ensures if refs[file] == 0 then
                live == old(live) - {file} && freed == old(freed) + {file} && cache == old(cache) - {file.path}
              else live == old(live) && freed == old(freed) && cache == old(cache)
    {
      hide Listed, Booked, Settled, SettledBut, Unloads;
      k := Retire(file);
      CountIs(file);
      Discard(file);
    }

    lemma CountIs(file: LoadedStaticFile)
      requires Booked({}) && file in live
      ensures file.refCount == refs[file]
    {
    }

    /** The end of unload: a file that nobody refers to is deleted. */
    method Discard(file: LoadedStaticFile)
      requires Booked({}) && file in live && file !in order && file.refCount == refs[file]
      modifies this`cache, this`live, this`freed
      ensures Booked({})
      ensures old(SettledBut({file})) ==> Settled()
      ensures if refs[file] == 0 then
                live == old(live) - {file} && freed == old(freed) + {file} && cache == old(cache) - {file.path}
              else live == old(live) && freed == old(freed) && cache == old(cache)
    {
      hide Owned, Counted, Tracked, Clean, Limits;
      if file.refCount == 0 { Delete(file); }
    }

    /** The part of unload that every file goes through. */
    method Retire(file: LoadedStaticFile) returns (ghost k: nat)
      requires Listed() && Booked({file}) && file in live && file.Loaded()
      modifies this`nLoaded, this`firstToFree, this`lastToFree, this`order
      modifies file`info, order`next, order`prev
      ensures Listed() && Booked({}) && file !in order
      ensures old(IsAt(file, k)) && ViewOf(file) == Unloads(old(ViewOf(file)), file, k)
      ensures old(Settled()) ==> SettledBut({file})
      ensures forall g :: g in order ==> g in old(order)
    {
      hide *;
      ViewIs(file);
      BookedParts({file});
      NotListed(file);
      k := PlaceIn(file);
      Mark(file);
      Leave(file, k);
      BookedFromParts();
      ViewIs(file);
      UnloadsIs(old(ViewOf(file)), file, k, ViewOf(file));
    }

    lemma PlaceIn(file: LoadedStaticFile) returns (k: nat)
      requires file in order
      ensures IsAt(file, k)
    {
      k :| k < |order| && order[k] == file;
    }

    lemma BookedParts(except: set<LoadedStaticFile>)
      requires Booked(except)
      ensures Ledger(except) && Tracked()
    {
    }

    lemma BookedFromParts()
      requires Ledger({}) && Tracked()
      ensures Booked({})
    {
    }

    /** doUnload: unmap or close. */
    method Mark(file: LoadedStaticFile)
      requires Ledger({file}) && TrackedBut(file) && file in live
      modifies file`info
      ensures Ledger({}) && TrackedBut(file) && file.info == AfterUnload(old(file.info)) && !file.Loaded()
      ensures old(Settled()) ==> SettledBut({file})
    {
      hide Owned, Counted, Limits;
      file.info := file.info.(mapping := Unmapped, fd := -1);
    }

    /** Take an unloaded file off the list. */
    method Leave(file: LoadedStaticFile, ghost k: nat)
      requires Listed() && TrackedBut(file) && IsAt(file, k) && !file.Loaded()
      modifies this`nLoaded, this`firstToFree, this`lastToFree, this`order
      modifies order`next, order`prev
      ensures Listed() && Tracked() && file !in order && order == Without(old(order), k)
      ensures forall g :: g in order ==> g in old(order)
    {
      WithoutMembers(order, k) by { assert Listed(); }
      hide Listed, Distinct, Without;
      Unlink(file, k);
    }

    /** Erase the map entry and delete the object; it is live, so it has not been deleted before. */
    method Delete(file: LoadedStaticFile)
      requires Owned() && Counted() && Tracked() && Clean({})
      requires file in live && file !in order && file.refCount == 0
      modifies this`cache, this`live, this`freed
      ensures Owned() && Counted() && Tracked() && Clean({})
      ensures live == old(live) - {file} && freed == old(freed) + {file} && file !in old(freed)
      ensures cache == old(cache) - {file.path}
      ensures old(SettledBut({file})) ==> Settled()
    {
      hide *;
      cache := cache - {file.path};
      live, freed := live - {file}, freed + {file};
      OwnedShrinks(file);
      CountedShrinks(file);
      TrackedShrinks(file);
      SettledShrinks(file);
    }

    twostate lemma OwnedShrinks(f: LoadedStaticFile)
      requires old(Owned()) && f in old(live) && freed == old(freed) + {f}
      requires cache == old(cache) - {f.path} && live == old(live) - {f}
      ensures Owned() && f !in old(freed)
    {
    }

    twostate lemma CountedShrinks(f: LoadedStaticFile)
      requires old(Counted()) && f in old(live) && old(f.refCount) == 0 && refs == old(refs) && live == old(live) - {f}
      requires forall g :: g in live ==> g.refCount == old(g.refCount)
      ensures Counted()
    {
    }

    twostate lemma TrackedShrinks(f: LoadedStaticFile)
      requires old(Tracked() && Clean({})) && f !in order && order == old(order) && live == old(live) - {f}
      requires forall g :: g in live ==> g.info == old(g.info)
      ensures Tracked() && Clean({})
    {
    }

    twostate lemma SettledShrinks(f: LoadedStaticFile)
      requires refs == old(refs) && live == old(live) - {f} && forall g :: g in live ==> g.info == old(g.info)
      ensures old(SettledBut({f})) ==> Settled()
    {
    }

    /** Unload the file at the front of the list: the one loaded longest ago. */
    method Pop()
      requires Valid()
      modifies this`nLoaded, this`firstToFree, this`lastToFree, this`order, this`cache, this`live, this`freed
      modifies order`info, order`next, order`prev
      ensures Valid() && (old(Settled()) ==> Settled())
      ensures order == if old(order) == [] then [] else old(order)[1..]
      ensures old(order) == [] ==> live == old(live) && freed == old(freed) && Model() == old(Model())
      ensures old(order) != [] ==>
        && old(order)[0].path in old(Model()).files
        && Model() == Unloading(old(Model()), old(order)[0].path)
        && (var f := old(order)[0];
            if refs[f] == 0 then live == old(live) - {f} && freed == old(freed) + {f}
            else live == old(live) && freed == old(freed))
      ensures forall f :: f in old(live) && !(old(order) != [] && f == old(order)[0]) ==> f.info == old(f.info)
    {
      hide *;
      Front();
      if firstToFree == null { return; }
      UnloadFront(firstToFree);
    }

    lemma Front()
      requires Valid()
      ensures firstToFree == if order == [] then null else order[0]
    {
    }

    lemma FrontIsLive()
      requires Valid() && order != []
      ensures order[0] in live && order[0].Loaded()
    {
      assert order[0] in order;
    }

    lemma FrontOnly(f: LoadedStaticFile, v: View, k: nat)
      requires k < |v.order| && v.order[k] == v.order[0] && PathsDiffer(v.order)
      ensures k == 0 && Unloads(v, f, k).order == v.order[1..]
    {
    }

    method UnloadFront(f: LoadedStaticFile)
      requires Valid() && order != [] && f == order[0]
      modifies this`nLoaded, this`firstToFree, this`lastToFree, this`order, this`cache, this`live, this`freed
      modifies f`info, order`next, order`prev
      ensures Valid() && (old(Settled()) ==> Settled())
      ensures order == old(order)[1..]
      ensures f.path in old(Model()).files && Model() == Unloading(old(Model()), f.path)
      ensures if refs[f] == 0 then live == old(live) - {f} && freed == old(freed) + {f}
              else live == old(live) && freed == old(freed)
    {
      hide *;
      FrontIsLive();
      Holds(f);
      f.LoadedIs();
      LoadedIsAt(f);
      ViewIs(f);
      ModelIs();
      ValidIsValidBut(f);
      ghost var k := Unload(f);
      FrontOnly(f, old(ViewOf(f)), k);
      ViewIs(f);
      if refs[f] == 0 { Dropped(f); } else { Holds(f); Viewed(f); }
      UnloadsPut(old(Model()), f, old(ViewOf(f)), k);
    }

    // -------------------------------------------------------------- references

    /** A new, unloaded object for a path the map does not have. */
    method AddFile(path: Path) returns (f: LoadedStaticFile)
      requires Valid() && path !in cache
      modifies this`cache, this`live
      ensures Valid() && fresh(f) && f.path == path
      ensures cache == old(cache)[path := f] && live == old(live) + {f} && (old(Settled()) ==> SettledBut({f}))
      ensures Model() == Added(old(Model()), path)
    {
      hide *;
      f := new LoadedStaticFile(path);
      NewIsUnloaded(f);
      ValidParts();
      Adopt(f);
      ValidFromParts();
      Mapped(path);
      SettledButNew(f);
    }

    lemma NewIsUnloaded(f: LoadedStaticFile)
      ensures f.info == NEW_INFO ==> !f.Loaded()
    {
    }

    /** Put a new file under its path. */
    method Adopt(f: LoadedStaticFile)
      requires Ledger({}) && Tracked() && f.path !in cache && f !in live && f !in freed && !f.Loaded()
               && f.refCount == 0
      modifies this`cache, this`live
      ensures Ledger({}) && Tracked() && cache == old(cache)[f.path := f] && live == old(live) + {f}
    {
      hide *;
      LedgerParts();
      cache := cache[f.path := f];
      live := live + {f};
      OwnedGrows(f);
      CountedGrows(f);
      TrackedGrows(f);
      LedgerFromParts();
    }

    twostate lemma OwnedGrows(f: LoadedStaticFile)
      requires old(Owned()) && f.path !in old(cache) && f !in freed && freed == old(freed)
      requires cache == old(cache)[f.path := f] && live == old(live) + {f}
      ensures Owned()
    {
    }

    twostate lemma CountedGrows(f: LoadedStaticFile)
      requires old(Counted()) && f !in old(live) && f.refCount == 0 && refs == old(refs) && live == old(live) + {f}
      requires forall g :: g in old(live) ==> g.refCount == old(g.refCount)
      ensures Counted()
    {
    }

    twostate lemma TrackedGrows(f: LoadedStaticFile)
      requires old(Tracked() && Clean({})) && f !in old(live) && !f.Loaded() && order == old(order)
               && live == old(live) + {f}
      requires forall g :: g in old(live) ==> g.info == old(g.info)
      ensures Tracked() && Clean({})
    {
    }

    twostate lemma SettledButNew(new f: LoadedStaticFile)
      requires live == old(live) + {f} && refs == old(refs) && forall g :: g in old(live) ==> g.info == old(g.info)
      ensures old(Settled()) ==> SettledBut({f})
    {
    }

    /** One new file has been put into the map. */
    twostate lemma Mapped(path: Path)
      requires path !in old(cache) && path in cache && cache[path].info == NEW_INFO && cache[path].refCount == 0
      requires cache == old(cache)[path := cache[path]]
      requires forall p :: p in old(cache) ==>
                 cache[p].info == old(cache[p].info) && cache[p].refCount == old(cache[p].refCount)
      requires unchanged(`order, `history, `loadsCounter, `requestsCounter, `currTime)
      requires unchanged(`capacity, `minCapacity, `maxCapacity, `maxPurgePerCycle, `maxMmapSize)
      ensures path !in old(Files()) && Model() == Added(old(Model()), path)
    {
      hide Paths;
      assert Files() == old(Files())[path := File(NEW_INFO, 0)];
    }

    method GetFile(path: Path) returns (f: LoadedStaticFile)
      requires Valid()
      modifies this`cache, this`live
      ensures Valid() && path in cache && f == cache[path] && f in live && f.path == path
      ensures old(Settled()) ==> SettledBut({f})
      ensures path in old(cache) ==> cache == old(cache) && live == old(live) && Model() == old(Model())
      ensures path !in old(cache) ==>
        fresh(f) && cache == old(cache)[path := f] && live == old(live) + {f} && Model() == Added(old(Model()), path)
    {
      hide *;
      if path !in cache {
        f := AddFile(path);
      } else {
        f := cache[path];
        MapIsLive(path);
        SettledIsBut(f);
      }
    }

    /** FileRef: constructed or copied. */
    method AddRef(f: LoadedStaticFile)
      requires Valid() && f in live
      modifies this`refs, f`refCount
      ensures Valid() && refs == old(refs) + multiset{f}
      ensures (old(Settled()) ==> Settled()) && (old(SettledBut({f})) ==> Settled())
      ensures old(Has(f)) && Model() == WithRefs(old(Model()), f.path, 1)
    {
      hide *;
      ValidParts();
      LedgerParts();
      InMap(f);
      Count(f);
      LedgerFromParts();
      ValidFromParts();
      Recounted(f);
    }

    method Count(f: LoadedStaticFile)
      requires Counted() && f in live
      modifies this`refs, f`refCount
      ensures Counted() && refs == old(refs) + multiset{f}
      ensures (old(Settled()) ==> Settled()) && (old(SettledBut({f})) ==> Settled())
      ensures f.refCount == old(f.refCount) + 1
    {
      f.refCount := f.refCount + 1;
      refs := refs + multiset{f};
    }

    /** Only the count of one file has changed. */
    twostate lemma Recounted(f: LoadedStaticFile)
      requires old(Owned()) && cache == old(cache) && Has(f) && f.info == old(f.info)
      requires forall p :: p in cache && cache[p] != f ==>
                 cache[p].info == old(cache[p].info) && cache[p].refCount == old(cache[p].refCount)
      requires unchanged(`order, `history, `loadsCounter, `requestsCounter, `currTime)
      requires unchanged(`capacity, `minCapacity, `maxCapacity, `maxPurgePerCycle, `maxMmapSize)
      ensures f.path in old(Files()) && Model() == WithRefs(old(Model()), f.path, f.refCount - old(f.refCount))
    {
      FileChanged(f);
      hide Files, Paths;
      FileAt(f);
    }

    /** FileRef destroyed: the last reference to an unloaded file takes the file with it. */
    method DropRef(f: LoadedStaticFile)
      requires Valid() && Settled() && f in refs
      modifies this`refs, this`cache, this`live, this`freed, f`refCount
      ensures Valid() && Settled() && refs == old(refs) - multiset{f}
      ensures if refs[f] == 0 && !old(f.Loaded()) then live == old(live) - {f} && freed == old(freed) + {f}
              else live == old(live) && freed == old(freed)
      ensures f.path in old(Model()).files && Model() == Released(old(Model()), f.path)
    {
      hide *;
      Referenced(f);
      Holds(f);
      f.LoadedIs();
      Release(f);
      if f.refCount == 0 && !f.Loaded() {
        RemoveFile(f.path);
        Deleted(f);
      } else {
        Recounted(f);
        SettledWith(f);
      }
      AllSettled();
      ReleasedIs(old(Model()), f.path);
    }

    lemma ReleasedIs(c: Cache, p: Path)
      requires p in c.files
      ensures Released(c, p)
              == if c.files[p].refCount == 1 && !IsLoaded(c.files[p].info) then c.(files := c.files - {p})
                 else WithRefs(c, p, -1)
    {
    }

    lemma SettledWith(f: LoadedStaticFile)
      requires SettledBut({f}) && (f.Loaded() || refs[f] > 0)
      ensures SettledBut({})
    {
    }

    lemma Holds(f: LoadedStaticFile)
      requires Valid() && f in live
      ensures Owned() && Has(f) && f.refCount == refs[f]
      ensures f.path in Model().files && Model().files[f.path] == File(f.info, f.refCount)
    {
    }

    /** Only the map has changed: one file has been deleted. */
    twostate lemma Deleted(f: LoadedStaticFile)
      requires old(Owned()) && old(Has(f)) && cache == old(cache) - {f.path}
      requires forall p :: p in cache ==>
                 cache[p].info == old(cache[p].info) && cache[p].refCount == old(cache[p].refCount)
      requires unchanged(`order, `history, `loadsCounter, `requestsCounter, `currTime)
      requires unchanged(`capacity, `minCapacity, `maxCapacity, `maxPurgePerCycle, `maxMmapSize)
      ensures Model() == old(Model()).(files := old(Model()).files - {f.path})
    {
      FileGone(f);
      hide Files, Paths;
    }

    /** Settled, these files left out. */
    ghost predicate SettledBut(s: set<LoadedStaticFile>)
      reads this`live, this`refs, live`info
    {
      forall g :: g in live && g !in s ==> g.Loaded() || refs[g] > 0
    }

    lemma SettledIsBut(f: LoadedStaticFile)
      ensures Settled() ==> SettledBut({f})
    {
    }

    lemma AllSettled()
      requires SettledBut({})
      ensures Settled()
    {
    }

    method Release(f: LoadedStaticFile)
      requires Valid() && Settled() && f in refs
      modifies this`refs, f`refCount
      ensures Valid() && refs == old(refs) - multiset{f} && f in live && SettledBut({f})
      ensures f.path in cache && cache[f.path] == f && f.refCount == refs[f]
    {
      hide *;
      ValidParts();
      LedgerParts();
      Uncount(f);
      LedgerFromParts();
      ValidFromParts();
      InMap(f);
    }

    method Uncount(f: LoadedStaticFile)
      requires Counted() && Settled() && f in refs
      modifies this`refs, f`refCount
      ensures Counted() && SettledBut({f})
      ensures refs == old(refs) - multiset{f} && f in live && f.refCount == refs[f]
    {
      f.refCount := f.refCount - 1;
      refs := refs - multiset{f};
    }

    lemma InMap(f: LoadedStaticFile)
      requires Owned() && f in live
      ensures Has(f)
    {
    }

    lemma LedgerParts()
      requires Ledger({})
      ensures Owned() && Clean({}) && Counted() && Limits()
    {
    }

    lemma LedgerFromParts()
      requires Owned() && Clean({}) && Counted() && Limits()
      ensures Ledger({})
    {
    }

    /** removeFile: delete the object the map holds under the path, and the map entry. */
    method RemoveFile(path: Path)
      requires Valid() && path in cache
      requires !cache[path].Loaded() && cache[path].refCount == 0 && SettledBut({cache[path]})
      modifies this`cache, this`live, this`freed
      ensures Valid() && SettledBut({})
      ensures live == old(live) - {old(cache[path])} && freed == old(freed) + {old(cache[path])}
      ensures cache == old(cache) - {path}
    {
      hide ListOk, Listed, Limits;
      Delete(cache[path]);
    }

    /** The handler for a path: the file, found or new, with a reference that the handler holds. */
    method CreateHandler(path: Path) returns (f: LoadedStaticFile)
      requires Valid() && Settled()
      modifies this`cache, this`live, this`refs, if path in cache then {cache[path]} else {}
      ensures Valid() && Settled()
      ensures f.path == path && f in live && refs == old(refs) + multiset{f}
      ensures path in old(cache) ==> f == old(cache[path]) && live == old(live)
      ensures path !in old(cache) ==> fresh(f) && live == old(live) + {f}
      ensures Model() == Created(old(Model()), path)
    {
      hide Valid, Settled, SettledBut, Model, WithRefs, Added;
      Keys(path);
      f := GetFile(path);
      AddRef(f);
    }

    lemma Keys(path: Path)
      ensures path in Model().files <==> path in cache
    {
    }

    // -------------------------------------------------------------- serving

    /** Make sure the file was checked against the disk in the last two seconds. The caller holds a reference,
        so the object stays; what happens to it is what StalenessOf says. `k` is the file's place in the list. */
    method ReloadIfStale(f: LoadedStaticFile, stat: Stat, disk: Disk) returns (ghost k: nat)
      requires Valid() && f in refs
      modifies this`loadsCounter, this`history, this`nLoaded, this`firstToFree, this`lastToFree, this`order
      modifies this`cache, this`live, this`freed
      modifies f`info, f`next, f`prev, order`next, order`prev
      ensures Valid() && live == old(live) && freed == old(freed) && (old(Settled()) ==> Settled())
      ensures old(f.Loaded()) ==> k < |old(order)| && old(order)[k] == f
      ensures Plainly(old(f.info), f.info, old(order), order,
                      if old(f.Loaded()) then Without(old(order), k) else old(order), f, f.path,
                      old(history), history, stat, disk, currTime, maxMmapSize)
      ensures old(HasRef(f)) && Model() == Refreshed(old(Model()), f.path, stat, disk)
      ensures TsCompare(f.info.lastCheck, currTime.(sec := currTime.sec - 2)) > 0
      ensures StalenessOf(old(f.info), currTime, stat) in {Unloaded, Changed} ==>
                (f.Loaded() <==> LoadsOk(disk, maxMmapSize))
    {
      hide *;
      Referenced(f);
      Holds(f);
      HoldsRef(f);
      LoadedIsAt(f);
      ViewIs(f);
      ModelIs();
      k := Refresh(f, stat, disk);
      Holds(f);
      f.LoadedIs();
      Viewed(f);
      ViewIs(f);
      RefreshesPut(old(Model()), f, old(ViewOf(f)), k, stat, disk);
      RefreshesChecks(old(ViewOf(f)), f, k, stat, disk, currTime, maxMmapSize);
      RefreshesPlainly(old(ViewOf(f)), f, k, stat, disk, currTime, maxMmapSize);
    }

    ghost predicate HasRef(f: LoadedStaticFile)
      reads this`cache, f`refCount
    {
      Has(f) && f.refCount != 0
    }

    /** reloadIfStale, in terms of what is known of the file and of the list. */
    method Refresh(f: LoadedStaticFile, stat: Stat, disk: Disk) returns (ghost k: nat)
      requires Valid() && f in live && refs[f] > 0
      modifies this`loadsCounter, this`history, this`nLoaded, this`firstToFree, this`lastToFree, this`order
      modifies this`cache, this`live, this`freed
      modifies f`info, f`next, f`prev, order`next, order`prev
      ensures Valid() && live == old(live) && freed == old(freed) && (old(Settled()) ==> Settled())
      ensures old(f.Loaded()) ==> k < |old(order)| && old(order)[k] == f
      ensures ViewOf(f) == Refreshes(old(ViewOf(f)), f, k, stat, disk, currTime, maxMmapSize)
    {
      k := 0;
      hide Valid, Settled, TsCompare, Loads, Unloads, LoadsOk, Refreshes;
      var recent := currTime.(sec := currTime.sec - 2);
      if TsCompare(f.info.lastCheck, recent) > 0 {
        if f.Loaded() { k := PlaceOf(f); }
        RefreshesRecent(ViewOf(f), f, k, stat, disk, currTime, maxMmapSize);
      } else {
        k := RefreshStale(f, stat, disk);
      }
    }

    lemma HoldsRef(f: LoadedStaticFile)
      requires Has(f) && f.refCount != 0
      ensures HasRef(f)
    {
    }

    /** A loaded file is in the list, whose files have different paths. */
    lemma LoadedIsAt(f: LoadedStaticFile)
      requires Valid() && f in live
      ensures f.Loaded() == IsLoaded(f.info) && PathsDiffer(order)
    {
      assert forall i :: 0 <= i < |order| ==> order[i] in order;
    }

    lemma ModelIs()
      ensures Model() == Cache(Files(), Paths(order), history, capacity, loadsCounter, requestsCounter, currTime,
                               Settings(minCapacity, maxCapacity, maxPurgePerCycle, maxMmapSize))
    {
    }

    /** Only one file, the list and the loads have changed. */
    twostate lemma Viewed(f: LoadedStaticFile)
      requires old(Owned()) && Owned() && live == old(live) && Has(f) && old(Has(f)) && f.refCount == old(f.refCount)
      requires forall g :: g in live && g != f ==> g.info == old(g.info) && g.refCount == old(g.refCount)
      requires unchanged(`requestsCounter, `currTime)
      requires unchanged(`capacity, `minCapacity, `maxCapacity, `maxPurgePerCycle, `maxMmapSize)
      ensures f.path in old(Model()).files
      ensures Model() == Put(old(Model()), f.path, ViewOf(f))
      ensures old(Model()) == Put(old(Model()), f.path, old(ViewOf(f)))
    {
      SameCache();
      FileChanged(f);
      hide Files, Paths;
      FileAt(f);
    }

    /** One file has been deleted; besides, only the list and the loads have changed. */
    twostate lemma Dropped(f: LoadedStaticFile)
      requires old(Owned()) && old(Has(f)) && cache == old(cache) - {f.path}
      requires forall g :: g in old(live) && g != f ==> g.info == old(g.info) && g.refCount == old(g.refCount)
      requires unchanged(`requestsCounter, `currTime)
      requires unchanged(`capacity, `minCapacity, `maxCapacity, `maxPurgePerCycle, `maxMmapSize)
      ensures f.path in old(Model()).files
      ensures Model() == Put(old(Model()), f.path, ViewOf(f)).(files := old(Model()).files - {f.path})
      ensures old(Model()) == Put(old(Model()), f.path, old(ViewOf(f)))
    {
      FileGone(f);
      hide Files, Paths;
      FileWas(f);
    }

    twostate lemma FileWas(f: LoadedStaticFile)
      requires old(Has(f))
      ensures f.path in old(Files()) && old(Files())[f.path] == File(old(f.info), old(f.refCount))
    {
    }

    twostate lemma SameCache()
      requires old(Owned()) && Owned() && live == old(live)
      ensures cache == old(cache)
    {
    }

    /** The rest of reloadIfStale, once the last check is known to be too old. */
    method RefreshStale(f: LoadedStaticFile, stat: Stat, disk: Disk) returns (ghost k: nat)
      requires Valid() && f in live && refs[f] > 0 && StalenessOf(f.info, currTime, stat) != Recent
      modifies this`loadsCounter, this`history, this`nLoaded, this`firstToFree, this`lastToFree, this`order
      modifies this`cache, this`live, this`freed
      modifies f`info, f`next, f`prev, order`next, order`prev
      ensures Valid() && live == old(live) && freed == old(freed) && (old(Settled()) ==> Settled())
      ensures old(f.Loaded()) ==> k < |old(order)| && old(order)[k] == f
      ensures ViewOf(f) == Refreshes(old(ViewOf(f)), f, k, stat, disk, currTime, maxMmapSize)
    {
      hide Valid, Settled, TsCompare, Loads, Unloads;
      k := 0;
      if !f.Loaded() {
        Load(f, disk);
      } else {
        k := Recheck(f, stat, disk);
      }
    }

    /** The half of reloadIfStale for a loaded file: ask the disk whether it is still the same. */
    method Recheck(f: LoadedStaticFile, stat: Stat, disk: Disk) returns (ghost k: nat)
      requires Valid() && f in live && f.Loaded() && refs[f] > 0
      modifies this`loadsCounter, this`history, this`nLoaded, this`firstToFree, this`lastToFree, this`order
      modifies this`cache, this`live, this`freed
      modifies f`info, f`next, f`prev, order`next, order`prev
      ensures Valid() && live == old(live) && freed == old(freed) && (old(Settled()) ==> Settled())
      ensures k < |old(order)| && old(order)[k] == f
      ensures var now := old(ViewOf(f)).(info := old(f.info).(lastCheck := currTime));
              ViewOf(f)
              == if stat.NoStat? then Unloads(now.(info := now.info.(lastException := Some(stat.errno))), f, k)
                 else if TsCompare(now.info.lastModified, stat.mtime) == 0 && now.info.length == stat.size then now
                 else Loads(Unloads(now, f, k), f, disk, currTime, maxMmapSize)
    {
      hide *;
      k := 0;
      LoadedIsClean(f);
      ViewIs(f);
      Note(f, f.info.(lastCheck := currTime));
      if stat.NoStat? {
        k := Vanished(f, stat.errno);
        return;
      }
      if TsCompare(f.info.lastModified, stat.mtime) != 0 || f.info.length != stat.size {
        k := Reload(f, disk);
      } else {
        k := PlaceOf(f);
      }
    }

    lemma PlaceOf(f: LoadedStaticFile) returns (k: nat)
      requires Valid() && f in live && f.Loaded()
      ensures k < |order| && order[k] == f
    {
      k :| k < |order| && order[k] == f;
    }

    /** The file cannot be examined any more: it keeps the error and is unloaded. */
    method Vanished(f: LoadedStaticFile, errno: int) returns (ghost k: nat)
      requires Valid() && f in live && f.Loaded() && refs[f] > 0
      modifies this`nLoaded, this`firstToFree, this`lastToFree, this`order, this`cache, this`live, this`freed
      modifies f`info, order`next, order`prev
      ensures Valid() && live == old(live) && freed == old(freed) && (old(Settled()) ==> Settled())
      ensures k < |old(order)| && old(order)[k] == f
      ensures var was := old(ViewOf(f));
              ViewOf(f) == Unloads(was.(info := was.info.(lastException := Some(errno))), f, k)
    {
      hide Valid, ValidBut, Settled, Without;
      Note(f, f.info.(lastException := Some(errno)));
      k := Unload(f);
    }

    method Reload(f: LoadedStaticFile, disk: Disk) returns (ghost k: nat)
      requires Valid() && f in live && f.Loaded() && refs[f] > 0
      modifies this`loadsCounter, this`history, this`nLoaded, this`firstToFree, this`lastToFree, this`order
      modifies this`cache, this`live, this`freed
      modifies f`info, f`next, f`prev, order`next, order`prev
      ensures Valid() && live == old(live) && freed == old(freed)
      ensures old(Settled()) ==> Settled()
      ensures k < |old(order)| && old(order)[k] == f
      ensures ViewOf(f) == Loads(Unloads(old(ViewOf(f)), f, k), f, disk, currTime, maxMmapSize)
    {
      hide Valid, ValidBut, Settled, Without;
      ValidIsValidBut(f);
      k := Unload(f);
      assert forall i :: 0 <= i < |order| ==> order[i] in order && order[i] in old(order);
      Load(f, disk);
    }

    /** Record something about a file without loading or unloading it. */
    method Note(f: LoadedStaticFile, info: FileInfo)
      requires Valid() && f in live && info.mapping == f.info.mapping && info.fd == f.info.fd
      modifies f`info
      ensures ValidBut(f) && f.info == info && (old(Settled()) ==> Settled())
      ensures f.Loaded() == old(f.Loaded()) && ViewOf(f) == old(ViewOf(f)).(info := info)
      ensures (f.Loaded() ==> info.lastException == None) ==> Valid()
    {
      hide ListOk, Listed, Owned, Counted, Limits;
      f.info := info;
    }

    /** The handler: bring the file up to date; serve it if it is loaded, which takes one more reference. */
    method RunHandler(f: LoadedStaticFile, stat: Stat, disk: Disk) returns (served: bool, ghost k: nat)
      requires Valid() && Settled() && f in refs
      modifies this`loadsCounter, this`history, this`nLoaded, this`firstToFree, this`lastToFree, this`order,
               this`requestsCounter
      modifies this`cache, this`live, this`freed, this`refs
      modifies f`info, f`next, f`prev, f`refCount, order`next, order`prev
      ensures Valid() && Settled() && live == old(live) && freed == old(freed)
      ensures served == f.Loaded() && refs == old(refs) + if served then multiset{f} else multiset{}
      ensures served ==> f.info.lastException == None
      ensures old(f.Loaded()) ==> k < |old(order)| && old(order)[k] == f
      ensures Plainly(old(f.info), f.info, old(order), order,
                      if old(f.Loaded()) then Without(old(order), k) else old(order), f, f.path,
                      old(history), history, stat, disk, currTime, maxMmapSize)
      ensures old(HasRef(f)) && Model() == Handled(old(Model()), f.path, stat, disk)
      ensures served == IsLoaded(Refreshed(old(Model()), f.path, stat, disk).files[f.path].info)
      ensures TsCompare(f.info.lastCheck, currTime.(sec := currTime.sec - 2)) > 0
      ensures StalenessOf(old(f.info), currTime, stat) in {Unloaded, Changed} ==>
                (served <==> LoadsOk(disk, maxMmapSize))
    {
      hide *;
      Referenced(f);
      Holds(f);
      k := ReloadIfStale(f, stat, disk);
      f.LoadedIs();
      Holds(f);
      ghost var r := Model();
      served := f.Loaded();
      if served {
        LoadedIsClean(f);
        AddRef(f);
        CountRequest();
      }
      HandledIs(old(Model()), f.path, stat, disk);
    }

    method CountRequest()
      modifies this`requestsCounter
      ensures Model() == old(Model()).(requests := Wrap32(old(Model()).requests + 1))
    {
      hide Files, Paths, Wrap32;
      requestsCounter := Wrap32(requestsCounter + 1);
    }

    lemma HandledIs(c: Cache, p: Path, stat: Stat, disk: Disk)
      requires p in c.files && c.files[p].refCount != 0
      ensures Handled(c, p, stat, disk)
              == (var r := Refreshed(c, p, stat, disk);
                  var w := WithRefs(r, p, 1);
                  if IsLoaded(r.files[p].info) then w.(requests := Wrap32(w.requests + 1)) else r)
    {
    }

    lemma Referenced(f: LoadedStaticFile)
      requires Valid() && f in refs
      ensures f in live && refs[f] > 0
    {
    }

    lemma ListIsLive()
      requires Valid()
      ensures forall i :: 0 <= i < |order| ==> order[i] in live
    {
      assert forall i :: 0 <= i < |order| ==> order[i] in order;
    }

    lemma MapIsLive(path: Path)
      requires Valid()
      ensures path in cache ==> cache[path] in live && cache[path].path == path
    {
    }

    lemma LoadedIsClean(f: LoadedStaticFile)
      requires Valid() && f in live && f.Loaded()
      ensures f.info.lastException == None
    {
    }

    // -------------------------------------------------------------- capacity

    /** Of the list `all` exactly the first k files, those loaded longest ago, are gone from it; of them, those
        nobody refers to are deleted. */
    ghost predicate Evicted(all: seq<LoadedStaticFile>, wasLive: set<LoadedStaticFile>,
                            wasFreed: set<LoadedStaticFile>, k: int)
      reads this`order, this`live, this`freed, this`refs
    {
      && 0 <= k <= |all| && order == all[k..]
      && live == wasLive - Unreferenced(refs, all, k)
      && freed == wasFreed + Unreferenced(refs, all, k)
    }

    /** Once per second: if requests hit the cache often enough, shrink it and unload the files loaded longest ago. */
    method TimerCB(now: Timespec)
      requires Valid() && Settled()
      modifies this`currTime, this`capacity, this`loadsCounter, this`requestsCounter
      modifies this`nLoaded, this`firstToFree, this`lastToFree, this`order, this`cache, this`live, this`freed
      modifies order`info, order`next, order`prev
      ensures Valid() && Settled() && Model() == Ticked(old(Model()), now)
      ensures Evicted(old(order), old(live), old(freed), EvictedBy(old(Model()))) && live <= old(live)
      ensures EnoughHits(old(Model())) && old(nLoaded) > capacity ==>
        var left := old(nLoaded) - maxPurgePerCycle;
        nLoaded == if left > capacity then left else capacity
      ensures TickedPlainly(old(loadsCounter), old(requestsCounter),
                            Settings(minCapacity, maxCapacity, maxPurgePerCycle, maxMmapSize),
                            old(capacity), capacity, old(order), order)
    {
      hide *;
      ghost var all, n, l, f, c := order, nLoaded, live, freed, Model();
      ListedCount();
      ModelParts();
      NothingEvicted();
      LimitsHold();
      var enough := HitsEnough();
      StartTick(now);
      if enough {
        Adapt();
        AfterPurge(all, n, l, f);
        EvictedLess(all, l, f, PurgeCount(n, capacity, maxPurgePerCycle));
      }
      EndTick();
      TickedIs(c, now);
      AfterTick(c, all, l, f);
    }

    method StartTick(now: Timespec)
      modifies this`currTime
      ensures Model() == old(Model()).(now := now)
      ensures old(Valid()) ==> Valid()
      ensures old(Settled()) ==> Settled()
    {
      hide Files, Paths, Valid, Settled;
      currTime := now;
    }

    method EndTick()
      modifies this`loadsCounter, this`requestsCounter
      ensures Model() == old(Model()).(loads := 0, requests := 0)
      ensures old(Valid()) ==> Valid()
      ensures old(Settled()) ==> Settled()
    {
      hide Files, Paths, Valid, Settled;
      loadsCounter, requestsCounter := 0, 0;
    }

    lemma TickedIs(c: Cache, now: Timespec)
      ensures var c' := c.(now := now);
              var r := if EnoughHits(c) then Purged(c'.(capacity := Shrunk(c.capacity, c.limits.minCapacity))) else c';
              Ticked(c, now) == r.(loads := 0, requests := 0)
      ensures var shrunk := Shrunk(c.capacity, c.limits.minCapacity);
              EvictedBy(c) == if EnoughHits(c) then PurgeCount(|c.order|, shrunk, c.limits.maxPurgePerCycle) else 0
    {
    }

    lemma ModelParts()
      ensures HitsEnough() == EnoughHits(Model())
      ensures Model().capacity == capacity && Model().order == Paths(order) && |Model().order| == |order|
      ensures order != [] ==> Model().order[0] == order[0].path
      ensures Model().limits == Settings(minCapacity, maxCapacity, maxPurgePerCycle, maxMmapSize)
    {
    }

    predicate HitsEnough()
      reads this`loadsCounter, this`requestsCounter
    {
      Wrap32(loadsCounter * TARGET_CACHE_HIT_RATIO) <= requestsCounter
    }

    lemma NothingEvicted()
      ensures Evicted(order, live, freed, 0)
    {
    }

    lemma EvictedNone(k: int)
      requires Evicted([], {}, {}, k)
      ensures live == freed == {}
    {
    }

    lemma EvictedLess(all: seq<LoadedStaticFile>, l: set<LoadedStaticFile>, f: set<LoadedStaticFile>, k: int)
      requires Evicted(all, l, f, k)
      ensures live <= l
    {
    }

    lemma AfterTick(c: Cache, all: seq<LoadedStaticFile>, l: set<LoadedStaticFile>, f: set<LoadedStaticFile>)
      requires WithinLimits(c) && |c.order| == |all| && Evicted(all, l, f, EvictedBy(c))
      requires capacity == if EnoughHits(c) then Shrunk(c.capacity, c.limits.minCapacity) else c.capacity
      ensures TickedPlainly(c.loads, c.requests, c.limits, c.capacity, capacity, all, order)
    {
      hide TickedPlainly, EnoughHits, EvictedBy, Shrunk;
      TickNumbers(c, all);
    }

    lemma LimitsHold()
      requires Valid()
      ensures WithinLimits(Model()) && 0 <= maxPurgePerCycle
      ensures Model().loads == loadsCounter && Model().requests == requestsCounter
    {
    }

    lemma AfterPurge(all: seq<LoadedStaticFile>, n: int, l: set<LoadedStaticFile>, f: set<LoadedStaticFile>)
      requires Valid() && n == |all| && Evicted(all, l, f, PurgeCount(n, capacity, maxPurgePerCycle))
      ensures n > capacity ==> nLoaded == if n - maxPurgePerCycle > capacity then n - maxPurgePerCycle else capacity
    {
    }

    /** Shrink by an eighth but not below the minimum, then purge. */
    method Adapt()
      requires Valid() && Settled()
      modifies this`capacity
      modifies this`nLoaded, this`firstToFree, this`lastToFree, this`order, this`cache, this`live, this`freed
      modifies order`info, order`next, order`prev
      ensures Valid() && Settled() && capacity == Shrunk(old(capacity), minCapacity)
      ensures Model() == Purged(old(Model()).(capacity := capacity))
      ensures Evicted(old(order), old(live), old(freed), PurgeCount(old(nLoaded), capacity, maxPurgePerCycle))
    {
      hide *;
      Shrink();
      Purge();
    }

    method Shrink()
      requires Valid()
      modifies this`capacity
      ensures Valid() && (old(Settled()) ==> Settled()) && capacity == Shrunk(old(capacity), minCapacity)
      ensures Model() == old(Model()).(capacity := capacity)
    {
      hide Files, Paths, Listed, Owned, Clean, Counted, Tracked, Settled;
      capacity := capacity - capacity / 8;
      if capacity < minCapacity { capacity := minCapacity; }
    }

    /** Unload from the front until the cache is within its capacity, at most maxPurgePerCycle files. */
    method Purge()
      requires Valid() && Settled()
      modifies this`nLoaded, this`firstToFree, this`lastToFree, this`order, this`cache, this`live, this`freed
      modifies order`info, order`next, order`prev
      ensures Valid() && Settled() && Model() == Purged(old(Model()))
      ensures Evicted(old(order), old(live), old(freed), PurgeCount(old(nLoaded), capacity, maxPurgePerCycle))
    {
      hide *;
      ghost var all, c := order, Model();
      ListedCount();
      StartsPurging();
      var i := 0;
      while i < maxPurgePerCycle
        invariant Valid() && Settled() && Purging(all, old(live), old(freed), c, i)
        invariant forall k :: 0 <= k < |order| ==> order[k] in old(order)
      {
        ListedCount();
        if nLoaded <= capacity { break; }
        PurgeOne(all, old(live), old(freed), c, i);
        i := i + 1;
      }
      ListedCount();
      PurgedIs(all, old(live), old(freed), c, i);
    }

    /** The files at the front that are gone, i of them, are among those to be purged, and so are the next. */
    ghost predicate Purging(all: seq<LoadedStaticFile>, l: set<LoadedStaticFile>, f: set<LoadedStaticFile>, c: Cache,
                            i: int)
      reads this, cache.Values`info, cache.Values`refCount
    {
      && Evicted(all, l, f, i) && (i > 0 ==> i <= maxPurgePerCycle && |all| - i >= capacity)
      && c.limits == Model().limits && PurgedUpTo(Model(), maxPurgePerCycle - i) == PurgedUpTo(c, maxPurgePerCycle)
    }

    lemma StartsPurging()
      ensures Purging(order, live, freed, Model(), 0)
    {
    }

    lemma PurgedIs(all: seq<LoadedStaticFile>, l: set<LoadedStaticFile>, f: set<LoadedStaticFile>, c: Cache, i: int)
      requires Purging(all, l, f, c, i) && (|order| <= capacity || i >= maxPurgePerCycle)
      ensures Model() == Purged(c) && Evicted(all, l, f, PurgeCount(|all|, capacity, maxPurgePerCycle))
    {
      hide Files, Paths, Popped;
      ModelParts();
      PurgeEnds(Model(), maxPurgePerCycle - i);
    }

    /** One turn of the purge. */
    method PurgeOne(ghost all: seq<LoadedStaticFile>, ghost l: set<LoadedStaticFile>, ghost f: set<LoadedStaticFile>,
                    ghost c: Cache, ghost i: int)
      requires Valid() && Settled() && Purging(all, l, f, c, i) && i < maxPurgePerCycle && |order| > capacity >= 0
      modifies this`nLoaded, this`firstToFree, this`lastToFree, this`order, this`cache, this`live, this`freed
      modifies order`info, order`next, order`prev
      ensures Valid() && Settled() && Purging(all, l, f, c, i + 1)
      ensures forall k :: 0 <= k < |order| ==> order[k] in old(order)
    {
      hide *;
      PurgingNow(all, l, f, c, i);
      Pop();
      PurgingNext(all, l, f, c, i);
    }

    lemma PurgingNow(all: seq<LoadedStaticFile>, l: set<LoadedStaticFile>, f: set<LoadedStaticFile>, c: Cache, i: int)
      requires Valid() && Purging(all, l, f, c, i) && i < maxPurgePerCycle && |order| > capacity >= 0
      ensures 0 <= i < |all| && |all| - i > capacity && order[0] == all[i] && order[1..] == all[i + 1..]
      ensures live == l - Unreferenced(refs, all, i) && freed == f + Unreferenced(refs, all, i)
      ensures c.limits == Settings(minCapacity, maxCapacity, maxPurgePerCycle, maxMmapSize)
      ensures order[0].path in Model().files
      ensures PurgedUpTo(Unloading(Model(), order[0].path), maxPurgePerCycle - (i + 1))
              == PurgedUpTo(c, maxPurgePerCycle)
    {
      hide *;
      PurgingParts(all, l, f, c, i);
      FrontIsLive();
      Holds(order[0]);
      ModelParts();
      PurgeStep(Model(), maxPurgePerCycle - i);
    }

    lemma PurgingParts(all: seq<LoadedStaticFile>, l: set<LoadedStaticFile>, f: set<LoadedStaticFile>, c: Cache, i: int)
      requires Purging(all, l, f, c, i)
      ensures 0 <= i <= |all| && order == all[i..]
      ensures live == l - Unreferenced(refs, all, i) && freed == f + Unreferenced(refs, all, i)
      ensures c.limits == Model().limits && PurgedUpTo(Model(), maxPurgePerCycle - i) == PurgedUpTo(c, maxPurgePerCycle)
    {
      hide Model, PurgedUpTo, Unreferenced;
    }

    lemma PurgingNext(all: seq<LoadedStaticFile>, l: set<LoadedStaticFile>, f: set<LoadedStaticFile>, c: Cache, i: int)
      requires 0 <= i < |all| && i < maxPurgePerCycle && |all| - i > capacity && order == all[i + 1..]
      requires var gone := Unreferenced(refs, all, i) + if refs[all[i]] == 0 then {all[i]} else {};
               live == l - gone && freed == f + gone
      requires c.limits == Settings(minCapacity, maxCapacity, maxPurgePerCycle, maxMmapSize)
      requires PurgedUpTo(Model(), maxPurgePerCycle - (i + 1)) == PurgedUpTo(c, maxPurgePerCycle)
      ensures Purging(all, l, f, c, i + 1)
    {
      hide Files, Paths, PurgedUpTo;
    }

    /** Load a file, unload the oldest if that exceeds the capacity, and raise the capacity if there were many
        misses. The file just loaded is never the one unloaded. */
    method LoadAndEvict(file: LoadedStaticFile, disk: Disk)
      requires Valid() && file in live && !file.Loaded()
      modifies this`loadsCounter, this`history, this`capacity
      modifies this`nLoaded, this`firstToFree, this`lastToFree, this`order, this`cache, this`live, this`freed
      modifies file`info, file`next, file`prev, order`info, order`next, order`prev
      ensures Valid() && file in live && (file.Loaded() <==> LoadsOk(disk, maxMmapSize))
      ensures var all := old(order) + if file.Loaded() then [file] else [];
              order == if |all| > old(capacity) then all[1..] else all
      ensures old(nLoaded) <= old(capacity) ==> nLoaded <= old(capacity) <= capacity
      ensures capacity == GrownCapacity(old(capacity), maxCapacity, loadsCounter, requestsCounter)
    {
      hide *;
      ListedCount();
      ViewIs(file);
      Load(file, disk);
      ViewIs(file);
      LoadedOrder(old(ViewOf(file)), file, disk, currTime, maxMmapSize);
      ListedCount();
      NewestIsNotFirst(file, old(order));
      EvictOne(file);
      GrowCapacity();
    }

    /** Unload the file at the front if there are too many; this other file stays as it is. */
    method EvictOne(file: LoadedStaticFile)
      requires Valid() && file in live && (nLoaded > capacity && order != [] ==> order[0] != file)
      modifies this`nLoaded, this`firstToFree, this`lastToFree, this`order, this`cache, this`live, this`freed
      modifies order`info, order`next, order`prev
      ensures Valid() && file in live && file.Loaded() == old(file.Loaded())
      ensures order == if |old(order)| > capacity then old(order)[1..] else old(order)
      ensures nLoaded == |order|
    {
      hide *;
      ListedCount();
      file.LoadedIs();
      if nLoaded > capacity { Pop(); }
      file.LoadedIs();
      ListedCount();
    }

    lemma LoadedOrder(v: View, f: LoadedStaticFile, disk: Disk, now: Timespec, maxMmapSize: int)
      ensures Loads(v, f, disk, now, maxMmapSize).order == v.order + if LoadsOk(disk, maxMmapSize) then [f] else []
    {
    }

    method GrowCapacity()
      requires Valid()
      modifies this`capacity
      ensures Valid() && capacity == GrownCapacity(old(capacity), maxCapacity, loadsCounter, requestsCounter)
      ensures old(capacity) <= capacity
      ensures var more := old(capacity) + old(capacity) / 8;
              if (loadsCounter * 2) % 0x1_0000_0000 <= old(capacity)
                 || (loadsCounter * 50) % 0x1_0000_0000 <= requestsCounter
              then capacity == old(capacity)
              else capacity == if more > maxCapacity then maxCapacity else more
    {
      hide ListOk, Listed, Owned, Counted, Tracked, Clean;
      if Wrap32(loadsCounter * 2) > capacity {
        if Wrap32(loadsCounter * TARGET_CACHE_HIT_RATIO) > requestsCounter {
          capacity := capacity + capacity / 8;
        }
        if capacity > maxCapacity { capacity := maxCapacity; }
      }
    }

    lemma NewestIsNotFirst(file: LoadedStaticFile, before: seq<LoadedStaticFile>)
      requires Valid() && file in live
      requires order == before + [file] || order == before
      ensures order == before + [file] && |order| > 1 ==> order[0] != file
      ensures order != [] ==> order[0] in live
      ensures order == before && !file.Loaded() && order != [] ==> order[0] != file
    {
    }

    lemma ListedCount()
      requires Valid()
      ensures nLoaded == |order| && capacity >= 1
    {
    }
  }

  // ---------------------------------------------------------------- every run

  /** Any sequence of operations on a new cache: create handlers, copy and destroy references, run handlers with
      any answer of the disk, let time pass. `handles` are the references in existence. The objects end as the run
      of the abstract cache does, every file reference is counted, and no file is left that is neither loaded nor
      referenced. */
  method AnyRun(start: Timespec, ops: seq<Op>) returns (m: StaticFileManager, handles: seq<LoadedStaticFile>)
    ensures fresh(m) && m.Valid() && m.Settled() && m.refs == multiset(handles)
    ensures Sound(World(NewCache(start), []))
    ensures World(m.Model(), Paths(handles)) == Run(World(NewCache(start), []), ops)
  {
    hide *;
    NewSound(start);
    NoPaths();
    m := new StaticFileManager(start);
    handles := [];
    ghost var w := World(NewCache(start), []);
    for n := 0 to |ops|
      invariant fresh(m) && fresh(m.live) && m.Valid() && m.Settled() && m.refs == multiset(handles)
      invariant Sound(World(m.Model(), Paths(handles)))
      invariant Run(World(m.Model(), Paths(handles)), ops[n..]) == Run(w, ops)
    {
      RunUnfolds(World(m.Model(), Paths(handles)), ops[n..]);
      assert ops[n..][0] == ops[n] && ops[n..][1..] == ops[n + 1..];
      handles := OneOp(m, handles, ops[n]);
    }
    RunEnds(World(m.Model(), Paths(handles)), ops[|ops|..]);
  }

  lemma NoPaths()
    ensures Paths([]) == []
  {
  }

  method OneOp(m: StaticFileManager, handles: seq<LoadedStaticFile>, op: Op)
    returns (handles': seq<LoadedStaticFile>)
    requires m.Valid() && m.Settled() && m.refs == multiset(handles)
    requires Sound(World(m.Model(), Paths(handles)))
    modifies m, m.live
    ensures m.Valid() && m.Settled() && m.refs == multiset(handles')
    ensures fresh(m.live - old(m.live))
    ensures World(m.Model(), Paths(handles')) == Step(old(World(m.Model(), Paths(handles))), op)
  {
    hide *;
    StepIs(World(m.Model(), Paths(handles)), op);
    handles' := handles;
    match op
    case Create(path) => handles' := CreateHandle(m, handles, path);
    case Copy(i) => if i < |handles| { handles' := CopyHandle(m, handles, i); }
    case Drop(i) => if i < |handles| { handles' := DropHandle(m, handles, i); }
    case Handle(i, stat, disk) => if i < |handles| { handles' := RunHandle(m, handles, i, stat, disk); }
    case Tick(now) =>
      m.ListIsLive();
      m.TimerCB(now);
  }

  method CreateHandle(m: StaticFileManager, handles: seq<LoadedStaticFile>, path: Path)
    returns (handles': seq<LoadedStaticFile>)
    requires m.Valid() && m.Settled() && m.refs == multiset(handles)
    modifies m, m.live
    ensures m.Valid() && m.Settled() && m.refs == multiset(handles')
    ensures fresh(m.live - old(m.live))
    ensures m.Model() == Created(old(m.Model()), path) && Paths(handles') == Paths(handles) + [path]
  {
    hide *;
    m.MapIsLive(path);
    var f := m.CreateHandler(path);
    handles' := handles + [f];
    PathsAppend(handles, f);
  }

  method CopyHandle(m: StaticFileManager, handles: seq<LoadedStaticFile>, i: nat)
    returns (handles': seq<LoadedStaticFile>)
    requires m.Valid() && m.Settled() && m.refs == multiset(handles) && i < |handles|
    modifies m, m.live
    ensures m.Valid() && m.Settled() && m.refs == multiset(handles')
    ensures m.live <= old(m.live)
    ensures var p := handles[i].path;
            && p in old(m.Model()).files && m.Model() == WithRefs(old(m.Model()), p, 1)
            && Paths(handles') == Paths(handles) + [p]
  {
    hide *;
    m.Referenced(handles[i]);
    m.Holds(handles[i]);
    m.AddRef(handles[i]);
    handles' := handles + [handles[i]];
    PathsAppend(handles, handles[i]);
  }

  method DropHandle(m: StaticFileManager, handles: seq<LoadedStaticFile>, i: nat)
    returns (handles': seq<LoadedStaticFile>)
    requires m.Valid() && m.Settled() && m.refs == multiset(handles) && i < |handles|
    modifies m, m.live
    ensures m.Valid() && m.Settled() && m.refs == multiset(handles')
    ensures m.live <= old(m.live)
    ensures var p := handles[i].path;
            && p in old(m.Model()).files && m.Model() == Released(old(m.Model()), p)
            && Paths(handles') == Paths(handles)[..i] + Paths(handles)[i + 1..]
  {
    hide *;
    m.Referenced(handles[i]);
    m.DropRef(handles[i]);
    handles' := Without(handles, i);
    WithoutOne(handles, i);
    PathsThinned(handles, i);
    WithoutOne(Paths(handles), i);
  }

  lemma WithoutOne<T>(s: seq<T>, i: nat)
    requires i < |s|
    ensures multiset(Without(s, i)) == multiset(s) - multiset{s[i]}
    ensures Without(s, i) == s[..i] + s[i + 1..]
  {
    assert s == s[..i] + [s[i]] + s[i + 1..];
  }

  method RunHandle(m: StaticFileManager, handles: seq<LoadedStaticFile>, i: nat, stat: Stat, disk: Disk)
    returns (handles': seq<LoadedStaticFile>)
    requires m.Valid() && m.Settled() && m.refs == multiset(handles) && i < |handles|
    modifies m, m.live
    ensures m.Valid() && m.Settled() && m.refs == multiset(handles')
    ensures m.live <= old(m.live)
    ensures var c, p := old(m.Model()), handles[i].path;
            && p in c.files && c.files[p].refCount != 0 && m.Model() == Handled(c, p, stat, disk)
            && Paths(handles') == if IsLoaded(Refreshed(c, p, stat, disk).files[p].info) then Paths(handles) + [p]
                                  else Paths(handles)
  {
    hide *;
    m.Referenced(handles[i]);
    m.Holds(handles[i]);
    m.ListIsLive();
    var served;
    ghost var k;
    served, k := m.RunHandler(handles[i], stat, disk);
    handles' := if served then handles + [handles[i]] else handles;
    PathsAppend(handles, handles[i]);
  }
}
