/** The route cache: four slots a set, overwritten round robin, in front of a router it must agree with. */
module RouteCache {
  import opened Bytes
  import opened Bits

  const MAX_PATH_LENGTH := 256
  const ENTRIES_PER_HASH := 4
  const HASH: byte := 35

  /** A C string in a buffer: everything before the first NUL. */
  function CString(s: seq<byte>): seq<byte> {
    match FindChar(s, 0, 0)
    case None => s
    case Some(i) => s[..i]
  }

  lemma CStringIs(s: seq<byte>)
    ensures 0 !in CString(s) && CString(s) <= s && (CString(s) != s ==> s[|CString(s)|] == 0)
  {
    FindCharSpec(s, 0, 0);
    match FindChar(s, 0, 0)
    case None =>
    case Some(i) => assert s[0..i] == s[..i];
  }

  /** keys are 256-byte buffers; a handler that was never assigned is empty. */
  datatype Entry<H> = Entry(keys: seq<seq<byte>>, handlers: seq<Option<H>>, nextToEvict: int)

  datatype Lookup<H> = Miss | Hit(handler: Option<H>)

  /** An accepted insert. */
  datatype Item<H> = Item(key: seq<byte>, handler: H)

  predicate WellFormed<H>(e: Entry<H>) {
    |e.keys| == ENTRIES_PER_HASH && |e.handlers| == ENTRIES_PER_HASH && 0 <= e.nextToEvict < ENTRIES_PER_HASH
    && forall k :: k in e.keys ==> |k| == MAX_PATH_LENGTH
  }

  /** The last four, or all if there are fewer. */
  predicate Held(k: int, n: int) { 0 <= k < n && n - 4 <= k }

  /** Round robin: where the k-th insert goes. */
  function SlotOf(k: nat): (i: nat)
    ensures i < 4
  {
    k % 4
  }

  /** The set holds exactly its last min(4, n) accepted inserts, each in the slot its number says; the slots that
      were never used hold the empty key. */
  ghost predicate HoldsLast<H>(e: Entry<H>, items: seq<Item<H>>)
    requires WellFormed(e)
  {
    && e.nextToEvict == SlotOf(|items|)
    && (forall k :: Held(k, |items|) ==>
          CString(e.keys[SlotOf(k)]) == CString(items[k].key) && e.handlers[SlotOf(k)] == Some(items[k].handler))
    && (forall j :: |items| <= j < 4 ==> CString(e.keys[j]) == [])
  }

  /** memcpy the key into a slot's buffer and end it with a NUL. */
  function Stored(path: seq<byte>, buffer: seq<byte>): (r: seq<byte>)
    requires |path| + 1 <= |buffer|
    ensures |r| == |buffer|
  {
    path + [0] + buffer[|path| + 1..]
  }

  lemma {:induction false} FindCharPrefix(s: seq<byte>, t: seq<byte>, ch: byte, from: nat)
    requires from <= |s|
    ensures FindChar(s + t, from, ch)
            == if FindChar(s, from, ch).Some? then FindChar(s, from, ch) else FindChar(s + t, |s|, ch)
    decreases |s| - from
  {
    if from < |s| && s[from] != ch { FindCharPrefix(s, t, ch, from + 1); }
  }

  lemma StoredReadsBack(path: seq<byte>, buffer: seq<byte>)
    requires |path| + 1 <= |buffer|
    ensures CString(Stored(path, buffer)) == CString(path)
  {
    var t := [0] + buffer[|path| + 1..];
    assert Stored(path, buffer) == path + t;
    FindCharPrefix(path, t, 0, 0);
    assert (path + t)[..|path|] == path;
  }

  lemma CStringOfNulFree(s: seq<byte>)
    ensures 0 !in s ==> CString(s) == s
  {
    FindCharSpec(s, 0, 0);
    assert s[0..] == s;
  }

  function Inserted<H>(e: Entry<H>, path: seq<byte>, handler: H): (r: Entry<H>)
    requires WellFormed(e) && |path| + 1 <= MAX_PATH_LENGTH
    ensures WellFormed(r)
  {
    var i := e.nextToEvict;
    Entry(e.keys[i := Stored(path, e.keys[i])], e.handlers[i := Some(handler)], (i + 1) % ENTRIES_PER_HASH)
  }

  lemma NextTurn(n: nat)
    ensures (SlotOf(n) + 1) % 4 == SlotOf(n + 1)
  {
  }

  lemma FirstRound(n: nat)
    ensures n < 4 ==> SlotOf(n) == n
  {
  }

  lemma OtherSlot(k: nat, n: nat)
    requires n - 4 < k < n
    ensures SlotOf(k) != SlotOf(n)
  {
  }

  /** One more insert pushes out exactly the oldest of four. */
  lemma InsertHoldsLast<H>(e: Entry<H>, items: seq<Item<H>>, path: seq<byte>, handler: H)
    requires WellFormed(e) && HoldsLast(e, items) && |path| + 1 <= MAX_PATH_LENGTH
    ensures HoldsLast(Inserted(e, path, handler), items + [Item(path, handler)])
  {
    var n, all, r := |items|, items + [Item(path, handler)], Inserted(e, path, handler);
    StoredReadsBack(path, e.keys[SlotOf(n)]);
    InsertedSlots(e, path, handler);
    hide CString, Stored, Inserted, SlotOf;
    forall k | Held(k, n + 1)
      ensures CString(r.keys[SlotOf(k)]) == CString(all[k].key) && r.handlers[SlotOf(k)] == Some(all[k].handler)
    {
      if k < n {
        assert Held(k, n) && all[k] == items[k];
        OtherSlot(k, n);
      }
    }
    forall j | n + 1 <= j < 4 ensures CString(r.keys[j]) == [] {
      FirstRound(n);
    }
    NextTurn(n);
  }

  lemma InsertedSlots<H>(e: Entry<H>, path: seq<byte>, handler: H)
    requires WellFormed(e) && |path| + 1 <= MAX_PATH_LENGTH
    ensures var r, i := Inserted(e, path, handler), e.nextToEvict;
            && r.nextToEvict == (i + 1) % 4 && r.keys[i] == Stored(path, e.keys[i]) && r.handlers[i] == Some(handler)
            && forall j :: 0 <= j < 4 && j != i ==> r.keys[j] == e.keys[j] && r.handlers[j] == e.handlers[j]
  {
  }

  // ---------------------------------------------------------------- the cache in front of a router

  /** The key of a request: host, '#', path. */
  function MakeKey(host: seq<byte>, path: seq<byte>): seq<byte> { host + [HASH] + path }

  lemma MakeKeyInjective(host: seq<byte>, path: seq<byte>, host': seq<byte>, path': seq<byte>)
    requires HASH !in host && HASH !in host'
    requires MakeKey(host, path) == MakeKey(host', path')
    ensures host == host' && path == path'
  {
    var k, k' := MakeKey(host, path), MakeKey(host', path');
    HashPosition(host, path);
    HashPosition(host', path');
    assert host == k[..|host|] && host' == k'[..|host'|];
    assert path == k[|host| + 1..] && path' == k'[|host'| + 1..];
  }

  lemma HashPosition(host: seq<byte>, path: seq<byte>)
    requires HASH !in host
    ensures FindChar(MakeKey(host, path), 0, HASH) == Some(|host|)
  {
    var k := MakeKey(host, path);
    assert forall j :: 0 <= j < |host| ==> k[j] == host[j];
    FindCharIs(k, 0, HASH, |host|);
  }

  type Router<!H> = (seq<byte>, seq<byte>) -> H

  /** A worker has a router, or else one handler for every request. */
  datatype Worker<!H> = Routing(router: Router<H>) | Fixed(handler: H)

  /** A stored item never gives a wrong answer: if its key is that of a request, its handler is the router's. */
  ghost predicate Agrees<H(!new)>(item: Item<H>, router: Router<H>) {
    forall host, path :: HASH !in host && MakeKey(host, path) == CString(item.key) ==>
      item.handler == router(host, path)
  }

  /** No two of the items held have the same key. */
  ghost predicate NoTwins<H>(items: seq<Item<H>>) {
    forall k, l :: Held(k, |items|) && Held(l, |items|) && k < l ==> CString(items[k].key) != CString(items[l].key)
  }

  /** One of the items held has this key. */
  ghost predicate HasKey<H>(items: seq<Item<H>>, path: seq<byte>) {
    exists k :: Held(k, |items|) && CString(items[k].key) == path
  }

  /** One of the items held has this key and this handler. */
  ghost predicate HasItem<H>(items: seq<Item<H>>, path: seq<byte>, handler: Option<H>) {
    exists k :: Held(k, |items|) && CString(items[k].key) == path && handler == Some(items[k].handler)
  }

  // ---------------------------------------------------------------- lookups on the table

  datatype Target = Target(host: seq<byte>, path: seq<byte>)

  function KeyOf(t: Target): seq<byte> { MakeKey(t.host, t.path) }

  /** The first of the slots from i on whose C string is the key. */
  function FindIn<H>(e: Entry<H>, key: seq<byte>, i: nat): Lookup<H>
    requires WellFormed(e) && i <= ENTRIES_PER_HASH
    decreases ENTRIES_PER_HASH - i
  {
    if i == ENTRIES_PER_HASH then Miss
    else if CString(e.keys[i]) == key then Hit(e.handlers[i])
    else FindIn(e, key, i + 1)
  }

  /** The handler invoked, and the set of the key afterwards. */
  function Answer<H>(e: Entry<H>, t: Target, router: Router<H>): H
    requires WellFormed(e)
  {
    match FindIn(e, KeyOf(t), 0)
    case Hit(Some(h)) => h
    case _ => router(t.host, t.path)
  }

  function After<H>(e: Entry<H>, t: Target, router: Router<H>): (r: Entry<H>)
    requires WellFormed(e)
    ensures WellFormed(r)
  {
    if FindIn(e, KeyOf(t), 0).Miss? && |KeyOf(t)| + 1 <= MAX_PATH_LENGTH then
      Inserted(e, KeyOf(t), router(t.host, t.path))
    else e
  }

  predicate TableOk<H>(table: seq<Entry<H>>) {
    table != [] && forall h :: 0 <= h < |table| ==> WellFormed(table[h])
  }

  /** The handlers invoked in a run of lookups. */
  function Serve<H>(table: seq<Entry<H>>, hash: seq<byte> -> int, router: Router<H>, run: seq<Target>): (r: seq<H>)
    requires TableOk(table)
    ensures |r| == |run|
    decreases |run|
  {
    if run == [] then []
    else
      var h := hash(KeyOf(run[0])) % |table|;
      [Answer(table[h], run[0], router)] + Serve(table[h := After(table[h], run[0], router)], hash, router, run[1..])
  }

  /** The table after a run of lookups. */
  function TableAfter<H>(table: seq<Entry<H>>, hash: seq<byte> -> int, router: Router<H>,
                         run: seq<Target>): (r: seq<Entry<H>>)
    requires TableOk(table)
    ensures TableOk(r) && |r| == |table|
    decreases |run|
  {
    if run == [] then table
    else
      var h := hash(KeyOf(run[0])) % |table|;
      TableAfter(table[h := After(table[h], run[0], router)], hash, router, run[1..])
  }

  lemma ServeStep<H>(table: seq<Entry<H>>, hash: seq<byte> -> int, router: Router<H>, run: seq<Target>)
    requires TableOk(table) && run != []
    ensures var h := hash(KeyOf(run[0])) % |table|;
            && WellFormed(table[h]) && TableOk(table[h := After(table[h], run[0], router)])
            && (var next := table[h := After(table[h], run[0], router)];
                && Serve(table, hash, router, run)
                   == [Answer(table[h], run[0], router)] + Serve(next, hash, router, run[1..])
                && TableAfter(table, hash, router, run) == TableAfter(next, hash, router, run[1..]))
  {
    hide Answer, After, WellFormed;
  }

  lemma NothingServed<H>(table: seq<Entry<H>>, hash: seq<byte> -> int, router: Router<H>)
    requires TableOk(table)
    ensures Serve(table, hash, router, []) == [] && TableAfter(table, hash, router, []) == table
  {
  }

  /** `junk` is what the new table's memory happens to hold. */
  function NewEntry<H>(junk: seq<byte>): (e: Entry<H>)
    requires |junk| == MAX_PATH_LENGTH
    ensures WellFormed(e)
  {
    var key := junk[0 := 0];
    Entry([key, key, key, key], [None, None, None, None], 0)
  }

  function NewTable<H>(size: nat, junk: seq<byte>): (table: seq<Entry<H>>)
    requires |junk| == MAX_PATH_LENGTH
    ensures |table| == size && forall h :: 0 <= h < size ==> table[h] == NewEntry(junk)
  {
    seq(size, _ => NewEntry(junk))
  }

  // ---------------------------------------------------------------- when the cache is transparent

  /** No '#' in the host, no NUL anywhere. */
  predicate Plain(t: Target) { HASH !in t.host && 0 !in t.host && 0 !in t.path }

  /** An item inserted for u answers lookups for t: it fits in a slot of t's set and reads back as t's key. */
  ghost predicate Shadows(u: Target, t: Target, size: nat, hash: seq<byte> -> int)
    requires size > 0
  {
    && CString(KeyOf(u)) == KeyOf(t) && |KeyOf(u)| + 1 <= MAX_PATH_LENGTH
    && hash(KeyOf(u)) % size == hash(KeyOf(t)) % size
  }

  /** ... and gives it another handler than the router would. */
  ghost predicate Clash<H>(u: Target, t: Target, size: nat, hash: seq<byte> -> int, router: Router<H>)
    requires size > 0
  {
    Shadows(u, t, size, hash) && router(u.host, u.path) != router(t.host, t.path)
  }

  function Routed<H>(router: Router<H>, run: seq<Target>): (r: seq<H>)
    ensures |r| == |run| && forall i :: 0 <= i < |run| ==> r[i] == router(run[i].host, run[i].path)
  {
    if run == [] then [] else [router(run[0].host, run[0].path)] + Routed(router, run[1..])
  }

  /** In every run of lookups of these targets, of any length, every handler invoked is the router's. */
  ghost predicate Transparent<H(!new)>(table: seq<Entry<H>>, hash: seq<byte> -> int, router: Router<H>,
                                       targets: iset<Target>)
    requires TableOk(table)
  {
    forall run :: (forall t :: t in run ==> t in targets) ==> Serve(table, hash, router, run) == Routed(router, run)
  }

  /** Slot j of set h was filled for u. */
  ghost predicate FilledFor<H>(e: Entry<H>, j: nat, u: Target, router: Router<H>)
    requires WellFormed(e) && j < ENTRIES_PER_HASH
  {
    CString(e.keys[j]) == CString(KeyOf(u)) && e.handlers[j] == Some(router(u.host, u.path))
  }

  ghost predicate Fitting(u: Target, h: int, size: nat, hash: seq<byte> -> int)
    requires size > 0
  {
    |KeyOf(u)| + 1 <= MAX_PATH_LENGTH && hash(KeyOf(u)) % size == h
  }

  /** Every slot in use was filled for one of the targets seen. */
  ghost predicate Explained<H>(e: Entry<H>, h: int, size: nat, hash: seq<byte> -> int, router: Router<H>,
                               seen: iset<Target>)
    requires WellFormed(e) && size > 0
  {
    forall j :: 0 <= j < ENTRIES_PER_HASH ==>
      CString(e.keys[j]) == [] || exists u :: u in seen && Fitting(u, h, size, hash) && FilledFor(e, j, u, router)
  }

  lemma KeyIsNotEmpty(t: Target)
    ensures KeyOf(t) != []
  {
  }

  lemma {:induction false} FindInHits<H>(e: Entry<H>, key: seq<byte>, i: nat)
    requires WellFormed(e) && i <= ENTRIES_PER_HASH
    ensures match FindIn(e, key, i)
            case Miss => forall j :: i <= j < ENTRIES_PER_HASH ==> CString(e.keys[j]) != key
            case Hit(h) => exists j :: i <= j < ENTRIES_PER_HASH && CString(e.keys[j]) == key && e.handlers[j] == h
    decreases ENTRIES_PER_HASH - i
  {
    if i < ENTRIES_PER_HASH { FindInHits(e, key, i + 1); }
  }

  /** One lookup: the answer is the router's for the target, or for one seen before that shadows it. */
  lemma AnswerExplained<H>(e: Entry<H>, t: Target, size: nat, hash: seq<byte> -> int, router: Router<H>,
                           seen: iset<Target>)
    requires WellFormed(e) && size > 0 && Explained(e, hash(KeyOf(t)) % size, size, hash, router, seen)
    ensures Answer(e, t, router) == router(t.host, t.path)
         || exists u :: u in seen && Shadows(u, t, size, hash) && Answer(e, t, router) == router(u.host, u.path)
  {
    hide CString, MakeKey;
    KeyIsNotEmpty(t);
    FindInHits(e, KeyOf(t), 0);
    hide FindIn;
  }

  lemma AfterExplained<H>(e: Entry<H>, t: Target, size: nat, hash: seq<byte> -> int, router: Router<H>,
                          seen: iset<Target>)
    requires WellFormed(e) && size > 0 && Explained(e, hash(KeyOf(t)) % size, size, hash, router, seen)
    ensures Explained(After(e, t, router), hash(KeyOf(t)) % size, size, hash, router, seen + iset{t})
  {
    hide CString, MakeKey, FindIn;
    var r, i := After(e, t, router), e.nextToEvict;
    if r != e {
      InsertedSlots(e, KeyOf(t), router(t.host, t.path));
      StoredReadsBack(KeyOf(t), e.keys[i]);
      assert Fitting(t, hash(KeyOf(t)) % size, size, hash) && FilledFor(r, i, t, router);
      hide Inserted, Stored;
    }
    forall j | 0 <= j < ENTRIES_PER_HASH && CString(r.keys[j]) != []
      ensures exists u :: u in seen + iset{t} && Fitting(u, hash(KeyOf(t)) % size, size, hash)
                          && FilledFor(r, j, u, router)
    {
      if r == e || j != i {
        var u :| u in seen && Fitting(u, hash(KeyOf(t)) % size, size, hash) && FilledFor(e, j, u, router);
        assert u in seen + iset{t} && FilledFor(r, j, u, router);
      }
    }
  }

  /** Every item inserted agrees with the router, and no key is held twice. */
  ghost predicate Faithful<H(!new)>(log: seq<seq<Item<H>>>, router: Router<H>) {
    forall h :: 0 <= h < |log| ==> NoTwins(log[h]) && forall item :: item in log[h] ==> Agrees(item, router)
  }

  lemma StaysFaithful<H(!new)>(log: seq<seq<Item<H>>>, h: int, item: Item<H>, router: Router<H>)
    requires Faithful(log, router) && 0 <= h < |log| && Agrees(item, router) && NoTwins(log[h] + [item])
    ensures Faithful(log[h := log[h] + [item]], router)
  {
    hide Agrees, NoTwins;
  }

  /** (size | size - 1) == size + (size - 1), on 32 bits. */
  predicate Asserted(size: nat)
    requires size < 0x8000_0000
  {
    var mask := (size - 1) % 0x1_0000_0000;
    Or(size, mask, 32) == (size + mask) % 0x1_0000_0000
  }

  /** The assertion in 32 bits, for every size that is not negative: it accepts the powers of two, and 0, which leaves
      no set to look in. */
  lemma AssertionAccepts(size: nat)
    requires size < 0x8000_0000
    ensures Asserted(size) <==> size == 0 || IsPow2(size)
  {
    hide Or, Pow2, IsPow2;
    Pow2Of32();
    if size == 0 {
      OrZero(0xFFFF_FFFF, 32);
    } else {
      OrIsSumIffPow2(size, 32);
    }
  }

  class RouteCache<H(!new)> {
    const size: int
    const sizeMask: int
    const table: array<Entry<H>>
    /** sdbm */
    const hash: seq<byte> -> int
    /** The accepted inserts of each set, oldest first. */
    ghost var log: seq<seq<Item<H>>>

    ghost predicate Valid()
      reads this, table
    {
      && 0 < size && IsPow2(size) && sizeMask == size - 1 && table.Length == size == |log|
      && forall h :: 0 <= h < size ==> WellFormed(table[h]) && HoldsLast(table[h], log[h])
    }

    /** The assertion in the source, on 32 bits; `junk` is what the new table's memory happens to hold. A table of size
        0 passes the assertion and is made, but there is no set in it to look up. */
    constructor (size: nat, hash: seq<byte> -> int, junk: seq<byte>)
      requires size < 0x8000_0000 && Asserted(size)
      requires |junk| == MAX_PATH_LENGTH
      ensures (Valid() <==> size > 0) && fresh(table) && this.size == size && this.hash == hash
      ensures table[..] == NewTable<H>(size, junk)
      ensures |log| == size && forall h :: 0 <= h < size ==> log[h] == []
    {
      hide Pow2, Or, CString, Asserted;
      AssertionAccepts(size);
      this.size, this.hash := size, hash;
      sizeMask := size - 1;
      var e := NewEntry<H>(junk);
      EmptyHoldsNothing(e, junk[0 := 0]);
      table := new Entry<H>[size](_ => e);
      log := Empties(size);
    }

    /** The set of a key; always in range. */
    function SetOf(path: seq<byte>): (h: int)
      requires size > 0 && IsPow2(size) && sizeMask == size - 1
      ensures h == hash(path) % size
    {
      AndMaskIsMod(hash(path), size);
      And(hash(path), sizeMask)
    }

    /** The first slot of the key's set with that key. */
    method Find(path: seq<byte>) returns (r: Lookup<H>)
      requires Valid()
      ensures r == FindIn(table[SetOf(path)], path, 0)
      ensures match r
              case Miss => !HasKey(log[SetOf(path)], path)
              case Hit(handler) => path == [] || HasItem(log[SetOf(path)], path, handler)
    {
      var h := SetOf(path);
      var entry := table[h];
      ghost var items := log[h];
      for i := 0 to ENTRIES_PER_HASH
        invariant forall j :: 0 <= j < i ==> CString(entry.keys[j]) != path
        invariant FindIn(entry, path, 0) == FindIn(entry, path, i)
      {
        if CString(entry.keys[i]) == path {
          SlotOrigin(entry, items, i);
          return Hit(entry.handlers[i]);
        }
      }
      assert !HasKey(items, path) by { KeysAreInSlots(entry, items, path); }
      return Miss;
    }

    /** Overwrite the slot whose turn it is; a key that does not fit is not cached. */
    method Insert(path: seq<byte>, handler: H)
      requires Valid()
      modifies this, table
      ensures Valid()
      ensures var h := SetOf(path);
              log == if |path| + 1 > MAX_PATH_LENGTH then old(log)
                     else old(log)[h := old(log)[h] + [Item(path, handler)]]
      ensures var h, was := SetOf(path), old(table[..]);
              table[..] == if |path| + 1 > MAX_PATH_LENGTH then was else was[h := Inserted(was[h], path, handler)]
    {
      if |path| + 1 > MAX_PATH_LENGTH { return; }
      var h := SetOf(path);
      InsertHoldsLast(table[h], log[h], path, handler);
      table[h] := Inserted(table[h], path, handler);
      log := log[h := log[h] + [Item(path, handler)]];
    }

    lemma HitIsRouters(t: Target, h: Option<H>, router: Router<H>)
      requires Valid() && Faithful(log, router) && Plain(t) && HasItem(log[SetOf(KeyOf(t))], KeyOf(t), h)
      ensures h == Some(router(t.host, t.path))
    {
      ghost var items := log[SetOf(KeyOf(t))];
      ghost var k :| Held(k, |items|) && CString(items[k].key) == KeyOf(t) && h == Some(items[k].handler);
      assert items[k] in items;
    }

    lemma PlainInsert(t: Target, router: Router<H>)
      requires Valid() && Faithful(log, router) && Plain(t) && !HasKey(log[SetOf(KeyOf(t))], KeyOf(t))
      ensures var item := Item(KeyOf(t), router(t.host, t.path));
              Faithful(log[SetOf(KeyOf(t)) := log[SetOf(KeyOf(t))] + [item]], router)
    {
      CStringOfNulFree(KeyOf(t));
      InsertFaithful(log[SetOf(KeyOf(t))], t.host, t.path, router);
      StaysFaithful(log, SetOf(KeyOf(t)), Item(KeyOf(t), router(t.host, t.path)), router);
    }

    /** The dispatch of a request, whatever its bytes: the answer of the specification. When no host holds '#' and no
        request a NUL, that is the router's handler, and no key comes to be held twice. Without a router nothing is
        ever inserted. */
    method Dispatch(t: Target, worker: Worker<H>) returns (handler: H)
      requires Valid()
      modifies this, table
      ensures Valid()
      ensures worker.Routing? ==>
        var h, was := SetOf(KeyOf(t)), old(table[..]);
        handler == Answer(was[h], t, worker.router) && table[..] == was[h := After(was[h], t, worker.router)]
      ensures worker.Routing? && old(Faithful(log, worker.router)) && Plain(t) ==>
        Faithful(log, worker.router) && handler == worker.router(t.host, t.path)
      ensures worker.Fixed? ==>
        && table[..] == old(table[..]) && log == old(log)
        && (FindIn(table[SetOf(KeyOf(t))], KeyOf(t), 0).Miss? ==> handler == worker.handler)
    {
      hide CString, Inserted, KeyOf, Faithful, HoldsLast, FindIn, HasKey, HasItem, Plain;
      var key := KeyOf(t);
      KeyIsNotEmpty(t);
      var cached := Find(key);
      if cached.Hit? && cached.handler.Some? {
        handler := cached.handler.value;
        if worker.Routing? && Plain(t) && Faithful(log, worker.router) {
          HitIsRouters(t, cached.handler, worker.router);
        }
        return;
      }
      match worker
      case Fixed(fixed) => handler := fixed;
      case Routing(router) =>
        if Plain(t) && Faithful(log, router) && cached.Miss? { PlainInsert(t, router); }
        handler := router(t.host, t.path);
        if cached.Miss? { Insert(key, handler); }
    }
  }

  ghost function Empties<H>(n: nat): (r: seq<seq<Item<H>>>)
    ensures |r| == n && forall h :: 0 <= h < n ==> r[h] == []
  {
    if n == 0 then [] else Empties(n - 1) + [[]]
  }

  lemma EmptyHoldsNothing<H>(e: Entry<H>, key: seq<byte>)
    requires WellFormed(e) && e.nextToEvict == 0
    requires |key| > 0 && key[0] == 0 && forall j :: 0 <= j < 4 ==> e.keys[j] == key
    ensures HoldsLast(e, [])
  {
  }

  lemma KeysAreInSlots<H>(e: Entry<H>, items: seq<Item<H>>, path: seq<byte>)
    requires WellFormed(e) && HoldsLast(e, items)
    requires forall j :: 0 <= j < 4 ==> CString(e.keys[j]) != path
    ensures !HasKey(items, path)
  {
    hide CString;
    forall k | Held(k, |items|) ensures CString(items[k].key) != path {
      assert CString(e.keys[SlotOf(k)]) == CString(items[k].key);
    }
  }

  /** A slot with a key that is not empty holds one of the last four items. */
  lemma SlotOrigin<H>(e: Entry<H>, items: seq<Item<H>>, i: nat)
    requires WellFormed(e) && HoldsLast(e, items) && i < 4
    ensures CString(e.keys[i]) == [] || HasItem(items, CString(e.keys[i]), e.handlers[i])
  {
    hide CString;
    if i < |items| {
      var k := |items| - 1 - (|items| - 1 - i) % 4;
      assert Held(k, |items|) && SlotOf(k) == i;
    }
  }

  lemma InsertFaithful<H(!new)>(items: seq<Item<H>>, host: seq<byte>, path: seq<byte>, router: Router<H>)
    requires HASH !in host && CString(MakeKey(host, path)) == MakeKey(host, path)
    requires NoTwins(items) && forall item :: item in items ==> Agrees(item, router)
    requires !HasKey(items, MakeKey(host, path))
    ensures var item := Item(MakeKey(host, path), router(host, path));
            Agrees(item, router) && NoTwins(items + [item])
  {
    var item := Item(MakeKey(host, path), router(host, path));
    forall host', path' | HASH !in host' && MakeKey(host', path') == CString(item.key)
      ensures item.handler == router(host', path')
    {
      MakeKeyInjective(host, path, host', path');
    }
    var all := items + [item];
    forall k, l | Held(k, |all|) && Held(l, |all|) && k < l
      ensures CString(all[k].key) != CString(all[l].key)
    {
      assert Held(k, |items|);
      if l < |items| { assert Held(l, |items|); }
    }
  }

  lemma NewFaithful<H(!new)>(c: RouteCache<H>, router: Router<H>)
    requires |c.log| == c.size && forall h :: 0 <= h < c.size ==> c.log[h] == []
    ensures Faithful(c.log, router)
  {
  }

  // ---------------------------------------------------------------- every run

  ghost predicate AllExplained<H>(table: seq<Entry<H>>, hash: seq<byte> -> int, router: Router<H>, seen: iset<Target>)
    requires TableOk(table)
  {
    forall h :: 0 <= h < |table| ==> Explained(table[h], h, |table|, hash, router, seen)
  }

  /** Each handler invoked is the router's, or that of a target seen before that shadows the request's. */
  lemma {:induction false} ServeExplained<H>(table: seq<Entry<H>>, hash: seq<byte> -> int, router: Router<H>,
                                             run: seq<Target>, seen: iset<Target>, i: nat)
    requires TableOk(table) && AllExplained(table, hash, router, seen) && i < |run|
    ensures var r, t, all := Serve(table, hash, router, run)[i], run[i], seen + iset u | u in run[..i];
            r == router(t.host, t.path)
            || exists u :: u in all && Shadows(u, t, |table|, hash) && r == router(u.host, u.path)
    decreases |run|
  {
    hide WellFormed, Explained, Shadows, Answer, After;
    var n, t := |table|, run[0];
    var h := hash(KeyOf(t)) % n;
    assert table[h] in table;
    if i == 0 {
      AnswerExplained(table[h], t, n, hash, router, seen);
    } else {
      AfterExplained(table[h], t, n, hash, router, seen);
      var table' := table[h := After(table[h], t, router)];
      forall g | 0 <= g < n ensures Explained(table'[g], g, n, hash, router, seen + iset{t}) {
        if g != h { ExplainedGrows(table[g], g, n, hash, router, seen, t); }
      }
      ServeExplained(table', hash, router, run[1..], seen + iset{t}, i - 1);
      assert run[..i] == [t] + run[1..][..i - 1];
    }
  }

  lemma ExplainedGrows<H>(e: Entry<H>, h: int, size: nat, hash: seq<byte> -> int, router: Router<H>,
                          seen: iset<Target>, t: Target)
    requires WellFormed(e) && size > 0 && Explained(e, h, size, hash, router, seen)
    ensures Explained(e, h, size, hash, router, seen + iset{t})
  {
    hide CString, MakeKey, FilledFor, Fitting;
  }

  lemma NewIsExplained<H>(size: nat, junk: seq<byte>, hash: seq<byte> -> int, router: Router<H>)
    requires size > 0 && |junk| == MAX_PATH_LENGTH
    ensures TableOk(NewTable<H>(size, junk)) && AllExplained(NewTable(size, junk), hash, router, iset{})
  {
    var table := NewTable<H>(size, junk);
    assert CString(junk[0 := 0]) == [];
  }

  /** Two lookups on a new table: the first fills a slot, and the second, shadowed, is answered from it. */
  lemma ShadowedPair<H>(size: nat, junk: seq<byte>, hash: seq<byte> -> int, router: Router<H>, u: Target, t: Target)
    requires size > 0 && |junk| == MAX_PATH_LENGTH && Shadows(u, t, size, hash)
    ensures TableOk(NewTable<H>(size, junk))
    ensures Serve(NewTable(size, junk), hash, router, [u, t]) == [router(u.host, u.path), router(u.host, u.path)]
  {
    NewIsExplained(size, junk, hash, router);
    NewMisses(junk, u, router);
    FirstIsFound(NewEntry<H>(junk), u, t, size, hash, router);
    var table, h := NewTable<H>(size, junk), hash(KeyOf(u)) % size;
    assert table[h] == NewEntry<H>(junk) && hash(KeyOf(t)) % size == h;
    hide Serve, NewTable, Answer, After, NewEntry;
    ServeStep(table, hash, router, [u, t]);
    var table' := table[h := After(table[h], u, router)];
    ServeStep(table', hash, router, [t]);
    assert [u, t][1..] == [t] && [t][1..] == [];
    NothingServed(table'[h := After(table'[h], t, router)], hash, router);
  }

  /** What the first lookup inserts into an empty set answers the second. */
  lemma FirstIsFound<H>(e: Entry<H>, u: Target, t: Target, size: nat, hash: seq<byte> -> int, router: Router<H>)
    requires WellFormed(e) && e.nextToEvict == 0 && FindIn(e, KeyOf(u), 0).Miss?
    requires size > 0 && Shadows(u, t, size, hash)
    ensures Answer(After(e, u, router), t, router) == router(u.host, u.path)
  {
    StoredReadsBack(KeyOf(u), e.keys[0]);
    InsertedSlots(e, KeyOf(u), router(u.host, u.path));
    hide CString, MakeKey, Stored, Inserted;
    var e' := After(e, u, router);
    assert FindIn(e', KeyOf(t), 0) == Hit(e'.handlers[0]);
  }

  lemma NewMisses<H>(junk: seq<byte>, u: Target, router: Router<H>)
    requires |junk| == MAX_PATH_LENGTH
    ensures FindIn(NewEntry<H>(junk), KeyOf(u), 0) == Miss && NewEntry<H>(junk).nextToEvict == 0
    ensures Answer(NewEntry(junk), u, router) == router(u.host, u.path)
  {
    KeyIsNotEmpty(u);
    assert CString(junk[0 := 0]) == [];
    hide CString, MakeKey;
    FindInHits(NewEntry<H>(junk), KeyOf(u), 0);
  }

  /** Transparency, exactly: every run of lookups of these targets on a new table invokes the router's handlers if and
      only if no two of them clash. */
  lemma TransparentIff<H(!new)>(size: nat, junk: seq<byte>, hash: seq<byte> -> int, router: Router<H>,
                                targets: iset<Target>)
    requires size > 0 && |junk| == MAX_PATH_LENGTH
    ensures TableOk(NewTable<H>(size, junk))
    ensures Transparent(NewTable(size, junk), hash, router, targets)
            <==> !exists u, t :: u in targets && t in targets && Clash(u, t, size, hash, router)
  {
    hide *;
    NewIsExplained(size, junk, hash, router);
    var table := NewTable<H>(size, junk);
    forall u, t | u in targets && t in targets && Clash(u, t, size, hash, router)
      ensures !Transparent(table, hash, router, targets)
    {
      ClashShows(size, junk, hash, router, u, t);
      TransparentRun(table, hash, router, targets, [u, t]);
    }
    if forall u, t :: u in targets && t in targets ==> !Clash(u, t, size, hash, router) {
      NoClashSuffices(table, hash, router, targets);
    }
  }

  lemma ClashShows<H>(size: nat, junk: seq<byte>, hash: seq<byte> -> int, router: Router<H>, u: Target, t: Target)
    requires size > 0 && |junk| == MAX_PATH_LENGTH && Clash(u, t, size, hash, router)
    ensures TableOk(NewTable<H>(size, junk))
    ensures Serve(NewTable(size, junk), hash, router, [u, t]) != Routed(router, [u, t])
  {
    ShadowedPair(size, junk, hash, router, u, t);
    hide Serve, NewTable, TableOk, Routed, Shadows;
    assert Routed(router, [u, t])[1] == router(t.host, t.path);
  }

  lemma NoClashSuffices<H(!new)>(table: seq<Entry<H>>, hash: seq<byte> -> int, router: Router<H>, targets: iset<Target>)
    requires TableOk(table) && AllExplained(table, hash, router, iset{})
    requires forall u, t :: u in targets && t in targets ==> !Clash(u, t, |table|, hash, router)
    ensures Transparent(table, hash, router, targets)
  {
    hide Serve, TableOk, Shadows, AllExplained, Routed;
    forall run: seq<Target> | forall t :: t in run ==> t in targets
      ensures Serve(table, hash, router, run) == Routed(router, run)
    {
      forall i | 0 <= i < |run| ensures Serve(table, hash, router, run)[i] == Routed(router, run)[i] {
        ServeExplained(table, hash, router, run, iset{}, i);
        assert run[i] in run && forall u :: u in run[..i] ==> u in run;
      }
    }
  }

  /** Hosts without '#' and requests without NUL never clash. */
  lemma PlainNeverClash<H>(u: Target, t: Target, size: nat, hash: seq<byte> -> int, router: Router<H>)
    requires size > 0 && Plain(u) && HASH !in t.host
    ensures !Clash(u, t, size, hash, router)
  {
    CStringOfNulFree(KeyOf(u));
    if Shadows(u, t, size, hash) { MakeKeyInjective(u.host, u.path, t.host, t.path); }
  }

  /** A router that tells paths apart. */
  function PathRouter(host: seq<byte>, path: seq<byte>): seq<byte> { path }

  /** Host a#/ with path /b, then host a with path /#/b: the second request gets the handler of the first. */
  lemma HashExample(size: nat, junk: seq<byte>, hash: seq<byte> -> int)
    requires size > 0 && |junk| == MAX_PATH_LENGTH
    ensures var u, t := Target([97, 35, 47], [47, 98]), Target([97], [47, 35, 47, 98]);
            && TableOk(NewTable<seq<byte>>(size, junk))
            && Serve(NewTable(size, junk), hash, PathRouter, [u, t]) == [u.path, u.path] != [u.path, t.path]
  {
    var u, t := Target([97, 35, 47], [47, 98]), Target([97], [47, 35, 47, 98]);
    assert KeyOf(u) == KeyOf(t) == [97, 35, 47, 35, 47, 98];
    CStringOfNulFree(KeyOf(u));
    ShadowedPair(size, junk, hash, PathRouter, u, t);
    assert u.path != t.path && [u.path, u.path][1] != [u.path, t.path][1];
  }

  /** Host a with path / NUL x, then host a with path /: stored as a C string the first key is the second. */
  lemma NulExample(size: nat, junk: seq<byte>, hash: seq<byte> -> int)
    requires size > 0 && |junk| == MAX_PATH_LENGTH
    requires hash([97, 35, 47, 0, 120]) % size == hash([97, 35, 47]) % size
    ensures var u, t := Target([97], [47, 0, 120]), Target([97], [47]);
            && TableOk(NewTable<seq<byte>>(size, junk))
            && Serve(NewTable(size, junk), hash, PathRouter, [u, t]) == [u.path, u.path] != [u.path, t.path]
  {
    var u, t := Target([97], [47, 0, 120]), Target([97], [47]);
    assert KeyOf(u) == [97, 35, 47, 0, 120] && KeyOf(t) == [97, 35, 47];
    FindCharIs(KeyOf(u), 0, 0, 3);
    assert KeyOf(u)[..3] == KeyOf(t);
    ShadowedPair(size, junk, hash, PathRouter, u, t);
    assert u.path != t.path && [u.path, u.path][1] != [u.path, t.path][1];
  }

  // ---------------------------------------------------------------- a key is held once

  /** No two of the slots in use hold the same key. */
  ghost predicate HeldOnce<H>(e: Entry<H>)
    requires WellFormed(e)
  {
    forall j, k :: 0 <= j < k < ENTRIES_PER_HASH && e.handlers[j].Some? && e.handlers[k].Some? ==>
      CString(e.keys[j]) != CString(e.keys[k])
  }

  ghost predicate AllHeldOnce<H>(table: seq<Entry<H>>)
    requires TableOk(table)
  {
    forall h :: 0 <= h < |table| ==> HeldOnce(table[h])
  }

  /** The key is cached although it has a NUL, so that it is never found. */
  predicate Lost(t: Target) { |KeyOf(t)| + 1 <= MAX_PATH_LENGTH && 0 in KeyOf(t) }

  lemma CStringHasNoNul(s: seq<byte>)
    ensures 0 !in CString(s)
  {
    CStringIs(s);
  }

  /** What the cache is for: looked up twice in a set that did not have it, a target is found the second time, with the
      router's handler, if and only if host and path have at most 254 bytes together and no NUL. */
  lemma SecondIsHit<H>(e: Entry<H>, t: Target, router: Router<H>)
    requires WellFormed(e) && FindIn(e, KeyOf(t), 0).Miss?
    ensures var cached := |t.host| + |t.path| <= 254 && 0 !in t.host && 0 !in t.path;
            FindIn(After(e, t, router), KeyOf(t), 0)
            == if cached then Hit(Some(router(t.host, t.path))) else Miss
  {
    var key, handler, i := KeyOf(t), router(t.host, t.path), e.nextToEvict;
    KeyBytes(t);
    CStringIs(key);
    CStringOfNulFree(key);
    FindInHits(e, key, 0);
    if |key| + 1 <= MAX_PATH_LENGTH {
      InsertedSlots(e, key, handler);
      StoredReadsBack(key, e.keys[i]);
      hide CString, Stored, Inserted, KeyOf;
      var r := After(e, t, router);
      FindInHits(r, key, 0);
      hide FindIn;
      if 0 !in key { assert CString(r.keys[i]) == key; }
    }
  }

  lemma KeyBytes(t: Target)
    ensures KeyOf(t) == t.host + [35] + t.path && |KeyOf(t)| == |t.host| + |t.path| + 1
    ensures 0 in KeyOf(t) <==> 0 in t.host || 0 in t.path
  {
  }

  lemma AfterHeldOnce<H>(e: Entry<H>, t: Target, router: Router<H>)
    requires WellFormed(e) && HeldOnce(e) && !Lost(t)
    ensures HeldOnce(After(e, t, router))
  {
    var key := KeyOf(t);
    hide CString, KeyOf, FindIn, Inserted;
    FindInHits(e, key, 0);
    if FindIn(e, key, 0).Miss? && |key| + 1 <= MAX_PATH_LENGTH {
      InsertedSlots(e, key, router(t.host, t.path));
      StoredReadsBack(key, e.keys[e.nextToEvict]);
      CStringOfNulFree(key);
    }
  }

  lemma {:induction false} RunHeldOnce<H>(table: seq<Entry<H>>, hash: seq<byte> -> int, router: Router<H>,
                                          run: seq<Target>)
    requires TableOk(table) && AllHeldOnce(table) && forall t :: t in run ==> !Lost(t)
    ensures AllHeldOnce(TableAfter(table, hash, router, run))
    decreases |run|
  {
    hide WellFormed, HeldOnce, After, Lost;
    if run != [] {
      var h := hash(KeyOf(run[0])) % |table|;
      AfterHeldOnce(table[h], run[0], router);
      RunHeldOnce(table[h := After(table[h], run[0], router)], hash, router, run[1..]);
    }
  }

  /** A lost key is never found, so it is inserted at every lookup. */
  lemma LostIsInserted<H>(e: Entry<H>, u: Target, router: Router<H>)
    requires WellFormed(e) && Lost(u)
    ensures After(e, u, router) == Inserted(e, KeyOf(u), router(u.host, u.path))
  {
    hide CString, KeyOf, Inserted;
    FindInHits(e, KeyOf(u), 0);
    forall j | 0 <= j < ENTRIES_PER_HASH ensures CString(e.keys[j]) != KeyOf(u) {
      CStringHasNoNul(e.keys[j]);
    }
  }

  /** Looked up twice on a new table, a lost key is held twice. */
  lemma LostTwice<H>(size: nat, junk: seq<byte>, hash: seq<byte> -> int, router: Router<H>, u: Target)
    requires size > 0 && |junk| == MAX_PATH_LENGTH && Lost(u)
    ensures TableOk(NewTable<H>(size, junk))
    ensures !AllHeldOnce(TableAfter(NewTable(size, junk), hash, router, [u, u]))
  {
    NewIsExplained(size, junk, hash, router);
    var table, h := NewTable<H>(size, junk), hash(KeyOf(u)) % size;
    var e := table[h];
    assert e.nextToEvict == 0;
    hide CString, KeyOf, Inserted, NewTable, Stored, After, Lost;
    LostIsInserted(e, u, router);
    var e1 := After(e, u, router);
    LostIsInserted(e1, u, router);
    var e2 := After(e1, u, router);
    TwiceInserted(e, u, router);
    TwoLookups(table, hash, router, u);
    assert TableAfter(table, hash, router, [u, u])[h] == e2;
  }

  lemma TwiceInserted<H>(e: Entry<H>, u: Target, router: Router<H>)
    requires WellFormed(e) && e.nextToEvict == 0 && |KeyOf(u)| + 1 <= MAX_PATH_LENGTH
    ensures var handler := router(u.host, u.path);
            !HeldOnce(Inserted(Inserted(e, KeyOf(u), handler), KeyOf(u), handler))
  {
    var key, handler := KeyOf(u), router(u.host, u.path);
    var e1 := Inserted(e, key, handler);
    StoredReadsBack(key, e.keys[0]);
    StoredReadsBack(key, e1.keys[1]);
    InsertedSlots(e, key, handler);
    InsertedSlots(e1, key, handler);
    hide *;
    var e2 := Inserted(e1, key, handler);
    assert CString(e2.keys[0]) == CString(e2.keys[1]) && e2.handlers[0].Some? && e2.handlers[1].Some?;
    TwinsAreNotOnce(e2);
  }

  lemma TwinsAreNotOnce<H>(e: Entry<H>)
    requires WellFormed(e) && CString(e.keys[0]) == CString(e.keys[1]) && e.handlers[0].Some? && e.handlers[1].Some?
    ensures !HeldOnce(e)
  {
    hide CString;
  }

  lemma TwoLookups<H>(table: seq<Entry<H>>, hash: seq<byte> -> int, router: Router<H>, u: Target)
    requires TableOk(table)
    ensures var h := hash(KeyOf(u)) % |table|;
            && WellFormed(table[h])
            && TableAfter(table, hash, router, [u, u]) == table[h := After(After(table[h], u, router), u, router)]
  {
    hide After, WellFormed, KeyOf;
    var h := hash(KeyOf(u)) % |table|;
    var once := table[h := After(table[h], u, router)];
    assert [u, u][1..] == [u] && [u][1..] == [];
    assert TableAfter(table, hash, router, [u, u]) == TableAfter(once, hash, router, [u]);
    assert TableAfter(once, hash, router, [u]) == once[h := After(once[h], u, router)];
  }

  /** A key is held in at most one slot, exactly: no run of lookups of these targets on a new table leaves a key in two
      slots of its set if and only if none of them has a key that fits in a slot and holds a NUL. */
  lemma HeldOnceIff<H(!new)>(size: nat, junk: seq<byte>, hash: seq<byte> -> int, router: Router<H>,
                             targets: iset<Target>)
    requires size > 0 && |junk| == MAX_PATH_LENGTH
    ensures TableOk(NewTable<H>(size, junk))
    ensures (forall run: seq<Target> :: (forall t :: t in run ==> t in targets) ==>
               AllHeldOnce(TableAfter(NewTable(size, junk), hash, router, run)))
            <==> forall t :: t in targets ==> !Lost(t)
  {
    hide *;
    NewIsExplained(size, junk, hash, router);
    var table := NewTable<H>(size, junk);
    NewHeldOnce<H>(size, junk);
    if t :| t in targets && Lost(t) {
      LostTwice(size, junk, hash, router, t);
      assert forall u :: u in [t, t] ==> u in targets;
    } else {
      forall run: seq<Target> | forall t :: t in run ==> t in targets
        ensures AllHeldOnce(TableAfter(table, hash, router, run))
      {
        RunHeldOnce(table, hash, router, run);
      }
    }
  }

  lemma NewHeldOnce<H>(size: nat, junk: seq<byte>)
    requires size > 0 && |junk| == MAX_PATH_LENGTH
    ensures TableOk(NewTable<H>(size, junk)) && AllHeldOnce(NewTable<H>(size, junk))
  {
    hide CString;
  }

  // ---------------------------------------------------------------- every run of the object

  /** Every run of lookups on a new cache object, whatever the requests hold: the handlers and the table of the
      specification, and so the router's handlers whenever no two of the requests clash, and every key in one slot
      whenever no request is lost. */
  method ServeAll<H(!new)>(size: nat, hash: seq<byte> -> int, junk: seq<byte>, requests: seq<Target>, router: Router<H>)
    returns (c: RouteCache<H>, handlers: seq<H>)
    requires 0 < size < 0x8000_0000 && Asserted(size) && |junk| == MAX_PATH_LENGTH
    ensures c.Valid() && TableOk(NewTable<H>(size, junk))
    ensures handlers == Serve(NewTable(size, junk), hash, router, requests)
    ensures c.table[..] == TableAfter(NewTable(size, junk), hash, router, requests)
    ensures (forall u, t :: u in requests && t in requests ==> !Clash(u, t, size, hash, router)) ==>
              handlers == Routed(router, requests)
    ensures TableOk(c.table[..]) && ((forall t :: t in requests ==> !Lost(t)) ==> AllHeldOnce(c.table[..]))
    ensures (forall t :: t in requests ==> Plain(t)) ==> Faithful(c.log, router)
  {
    hide *;
    c := new RouteCache<H>(size, hash, junk);
    NewIsExplained(size, junk, hash, router);
    NewHeldOnce<H>(size, junk);
    NewFaithful(c, router);
    handlers := [];
    ghost var table := NewTable<H>(size, junk);
    assert requests[0..] == requests;
    for n := 0 to |requests|
      invariant c.Valid() && fresh(c) && fresh(c.table) && c.size == size && c.hash == hash
      invariant TableOk(c.table[..])
      invariant Serve(table, hash, router, requests) == handlers + Serve(c.table[..], hash, router, requests[n..])
      invariant TableAfter(table, hash, router, requests) == TableAfter(c.table[..], hash, router, requests[n..])
      invariant (forall t :: t in requests ==> Plain(t)) ==> Faithful(c.log, router)
    {
      ServeStep(c.table[..], hash, router, requests[n..]);
      SetIsIndex(c, KeyOf(requests[n]));
      var h := c.Dispatch(requests[n], Routing(router));
      handlers := handlers + [h];
      assert requests[n..][1..] == requests[n + 1..];
    }
    NothingServed(c.table[..], hash, router);
    assert requests[|requests|..] == [];
    RoutedUnlessClash(size, junk, hash, router, requests);
    OnceUnlessLost(table, hash, router, requests);
  }

  lemma OnceUnlessLost<H>(table: seq<Entry<H>>, hash: seq<byte> -> int, router: Router<H>, run: seq<Target>)
    requires TableOk(table) && AllHeldOnce(table)
    ensures (forall t :: t in run ==> !Lost(t)) ==> AllHeldOnce(TableAfter(table, hash, router, run))
  {
    hide *;
    if forall t :: t in run ==> !Lost(t) { RunHeldOnce(table, hash, router, run); }
  }

  /** A worker without a router: its one handler answers every request. */
  method ServeFixed<H(!new)>(size: nat, hash: seq<byte> -> int, junk: seq<byte>, requests: seq<Target>, handler: H)
    returns (handlers: seq<H>)
    requires 0 < size < 0x8000_0000 && Asserted(size) && |junk| == MAX_PATH_LENGTH
    ensures |handlers| == |requests| && forall h :: h in handlers ==> h == handler
  {
    hide *;
    var c := new RouteCache<H>(size, hash, junk);
    handlers := [];
    for n := 0 to |requests|
      invariant c.Valid() && fresh(c) && fresh(c.table) && c.size == size && c.table[..] == NewTable<H>(size, junk)
      invariant |handlers| == n && forall h :: h in handlers ==> h == handler
    {
      SetIsIndex(c, KeyOf(requests[n]));
      NewMisses(junk, requests[n], (host, path) => handler);
      assert c.table[..][c.SetOf(KeyOf(requests[n]))] == NewEntry<H>(junk);
      var h := c.Dispatch(requests[n], Fixed(handler));
      handlers := handlers + [h];
    }
  }

  lemma SetIsIndex<H(!new)>(c: RouteCache<H>, key: seq<byte>)
    requires c.Valid()
    ensures c.size > 0 && IsPow2(c.size) && c.sizeMask == c.size - 1 && c.table.Length == c.size
    ensures c.SetOf(key) == c.hash(key) % c.size
  {
  }

  lemma RoutedUnlessClash<H(!new)>(size: nat, junk: seq<byte>, hash: seq<byte> -> int, router: Router<H>,
                                   run: seq<Target>)
    requires size > 0 && |junk| == MAX_PATH_LENGTH
    requires TableOk(NewTable<H>(size, junk))
    ensures (forall u, t :: u in run && t in run ==> !Clash(u, t, size, hash, router)) ==>
              Serve(NewTable(size, junk), hash, router, run) == Routed(router, run)
  {
    hide *;
    var targets := iset t | t in run;
    TransparentIff(size, junk, hash, router, targets);
    TransparentRun(NewTable(size, junk), hash, router, targets, run);
  }

  lemma TransparentRun<H(!new)>(table: seq<Entry<H>>, hash: seq<byte> -> int, router: Router<H>, targets: iset<Target>,
                                run: seq<Target>)
    requires TableOk(table) && forall t :: t in run ==> t in targets
    ensures Transparent(table, hash, router, targets) ==> Serve(table, hash, router, run) == Routed(router, run)
  {
  }
}
