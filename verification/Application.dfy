/** From the stream to the handlers: the requests of a connection, the query string cut off each path, and the route
    cache in front of the router. */
module Application {
  import opened Bits
  import opened Bytes
  import opened Connection
  import opened HttpSpec
  import opened QueryString
  import opened RouteCache
  import opened StringBuilder
  import RequestText
  import Session

  const QUESTION: byte := 63

  /** The path a handler sees and the router gets: everything before the first '?'. */
  function CutPath(path: seq<byte>): (cut: seq<byte>)
    ensures 63 !in cut && cut <= path && (cut != path ==> path[|cut|] == 63)
  {
    FindCharSpec(path, 0, QUESTION);
    assert path[0..] == path;
    match FindChar(path, 0, QUESTION)
    case None => path
    case Some(i) => assert path[0..i] == path[..i]; path[..i]
  }

  function QueryOf(path: seq<byte>): (query: seq<Pair>)
    ensures query == if 63 in path then QueryPairs(path[|CutPath(path)| + 1..]) else []
  {
    FindCharSpec(path, 0, QUESTION);
    assert path[0..] == path;
    match FindChar(path, 0, QUESTION)
    case None => []
    case Some(i) => QueryPairs(path[i + 1..])
  }

  /** A path without '?', followed by '?' and a query built from names and values, gives back the path and them. */
  lemma PathRoundTrip(path: seq<byte>, ps: seq<Pair>)
    requires QUESTION !in path
    ensures CutPath(path + [QUESTION] + Join(ps)) == path && QueryOf(path + [QUESTION] + Join(ps)) == ps
  {
    var s := path + [QUESTION] + Join(ps);
    assert forall j :: 0 <= j < |path| ==> s[j] == path[j];
    FindCharIs(s, 0, QUESTION, |path|);
    assert s[..|path|] == path && s[|path| + 1..] == Join(ps);
    QueryRoundTrip(ps);
  }

  /** A path without '?', followed by '?' and any spelling of names and values, gives back the path and them. */
  lemma PathSpelling(path: seq<byte>, pieces: seq<Piece>, meanings: seq<seq<Pair>>)
    requires 63 !in path
    requires |pieces| == |meanings| && forall i :: 0 <= i < |pieces| ==> Means(pieces[i], meanings[i])
    ensures var s := path + [63] + JoinPieces(pieces); CutPath(s) == path && QueryOf(s) == AllPairs(meanings)
  {
    hide Means, JoinPieces, AllPairs, QueryPairs;
    var s := path + [63] + JoinPieces(pieces);
    assert forall j :: 0 <= j < |path| ==> s[j] == path[j];
    FindCharIs(s, 0, QUESTION, |path|);
    assert s[..|path|] == path && s[|path| + 1..] == JoinPieces(pieces);
    QuerySpelling(pieces, meanings);
  }

  /** Nothing is cut off a path exactly when it has no '?'; what is left never has one, and what is cut off starts with
      the first. */
  lemma CutPathIs(path: seq<byte>)
    ensures CutPath(path) == path <==> 63 !in path
    ensures 63 !in CutPath(path) && CutPath(path) <= path && (63 in path ==> path[|CutPath(path)|] == 63)
    ensures 63 !in path ==> QueryOf(path) == []
  {
    hide QueryPairs;
  }

  /** Cut the query string off a path and read its names and values out of the string pool. */
  method ParseQuery(path: seq<byte>, pool: StringBuilder) returns (cut: seq<byte>, query: seq<Pair>)
    requires pool.Valid()
    modifies pool, pool.data
    ensures pool.Valid() && (pool.data == old(pool.data) || fresh(pool.data))
    ensures cut == CutPath(path) && query == QueryOf(path)
  {
    hide QueryPairs, ReadPairs;
    pool.Clear();
    var que := FindChar(path, 0, QUESTION);
    if que.None? { return path, []; }
    NoPairs(pool.Contents());
    var count, indices := ParseQueryString(path[que.value + 1..], pool, []);
    query := ViewPairs(pool, indices);
    cut := path[..que.value];
  }

  lemma NoPairs(s: seq<byte>)
    ensures ReadPairs(s, []) == []
  {
  }

  /** The pairs as views of the pool; a value that is not there is a view of no bytes. */
  method ViewPairs(pool: StringBuilder, indices: seq<Indices>) returns (query: seq<Pair>)
    requires pool.Valid()
    ensures query == ReadPairs(pool.Contents(), indices)
  {
    query := [];
    var s := pool.Contents();
    assert indices[..|indices|] == indices;
    for n := 0 to |indices|
      invariant query == ReadPairs(s, indices[..n])
    {
      var i := indices[n];
      query := query + [Pair(View(s, i.nS, i.nE), View(s, i.vS, i.vE))];
      assert indices[..n + 1][..n] == indices[..n];
    }
  }

  // ---------------------------------------------------------------- from the stream to the handlers

  /** Malformed requests are answered without a handler. */
  function TargetsOf(requests: seq<Request>): seq<Target> {
    if requests == [] then []
    else
      var before, r := TargetsOf(requests[..|requests| - 1]), requests[|requests| - 1];
      if r.malformed then before else before + [Target(r.host, CutPath(r.path))]
  }

  function QueriesOf(requests: seq<Request>): seq<seq<Pair>> {
    if requests == [] then []
    else
      var before, r := QueriesOf(requests[..|requests| - 1]), requests[|requests| - 1];
      if r.malformed then before else before + [QueryOf(r.path)]
  }

  /** How many of the first n requests are well formed. */
  function GoodBefore(requests: seq<Request>, n: nat): (k: nat)
    requires n <= |requests|
  {
    if n == 0 then 0 else GoodBefore(requests, n - 1) + if requests[n - 1].malformed then 0 else 1
  }

  /** There is one target and one list of pairs for each well-formed request, in order: its host, its path before the
      first '?', and what is behind it. */
  lemma TargetsAre(requests: seq<Request>)
    ensures |TargetsOf(requests)| == |QueriesOf(requests)| == GoodBefore(requests, |requests|)
    ensures forall n :: 0 <= n < |requests| && !requests[n].malformed ==> TargetIs(requests, n)
  {
    TargetCount(requests);
    forall n | 0 <= n < |requests| && !requests[n].malformed ensures TargetIs(requests, n) {
      TargetAt(requests, n);
    }
  }

  ghost predicate TargetIs(requests: seq<Request>, n: nat)
    requires n < |requests|
  {
    var k := GoodBefore(requests, n);
    && k < |TargetsOf(requests)| && TargetsOf(requests)[k] == Target(requests[n].host, CutPath(requests[n].path))
    && k < |QueriesOf(requests)| && QueriesOf(requests)[k] == QueryOf(requests[n].path)
  }

  lemma {:induction false} TargetCount(requests: seq<Request>)
    ensures |TargetsOf(requests)| == |QueriesOf(requests)| == GoodBefore(requests, |requests|)
    decreases |requests|
  {
    hide CutPath, QueryOf;
    if requests != [] {
      TargetCount(requests[..|requests| - 1]);
      GoodBeforePrefix(requests, |requests| - 1, |requests| - 1);
    }
  }

  lemma {:induction false} TargetAt(requests: seq<Request>, n: nat)
    requires n < |requests| && !requests[n].malformed
    ensures TargetIs(requests, n)
    decreases |requests|
  {
    hide CutPath, QueryOf;
    var last := |requests| - 1;
    GoodBeforePrefix(requests, last, n);
    hide GoodBefore;
    if n < last {
      TargetAt(requests[..last], n);
    } else {
      TargetCount(requests[..last]);
    }
  }

  lemma {:induction false} TargetsComeFrom(requests: seq<Request>)
    ensures forall t :: t in TargetsOf(requests) ==>
              exists n :: 0 <= n < |requests| && !requests[n].malformed
                          && t == Target(requests[n].host, CutPath(requests[n].path))
  {
    hide CutPath;
    if requests != [] {
      var last := |requests| - 1;
      var before := requests[..last];
      TargetsComeFrom(before);
      forall t | t in TargetsOf(requests)
        ensures exists n :: 0 <= n < |requests| && !requests[n].malformed
                            && t == Target(requests[n].host, CutPath(requests[n].path))
      {
        if t in TargetsOf(before) {
          var n :| 0 <= n < |before| && !before[n].malformed && t == Target(before[n].host, CutPath(before[n].path));
          assert requests[n] == before[n];
        } else {
          assert !requests[last].malformed;
        }
      }
    }
  }

  lemma {:induction false} GoodBeforePrefix(requests: seq<Request>, m: nat, n: nat)
    requires n <= m <= |requests|
    ensures GoodBefore(requests, n) == GoodBefore(requests[..m], n)
    decreases n
  {
    if n > 0 { GoodBeforePrefix(requests, m, n - 1); }
  }

  method ParseAll(requests: seq<Request>) returns (targets: seq<Target>, queries: seq<seq<Pair>>)
    ensures targets == TargetsOf(requests) && queries == QueriesOf(requests)
  {
    hide CutPath, QueryOf;
    var pool := new StringBuilder();
    targets, queries := [], [];
    assert requests[..|requests|] == requests;
    for n := 0 to |requests|
      invariant pool.Valid() && fresh(pool) && fresh(pool.data)
      invariant targets == TargetsOf(requests[..n]) && queries == QueriesOf(requests[..n])
    {
      var r := requests[n];
      assert requests[..n + 1][..n] == requests[..n];
      if !r.malformed {
        var path, query := ParseQuery(r.path, pool);
        targets, queries := targets + [Target(r.host, path)], queries + [query];
      }
    }
  }

  /** No two well-formed requests clash in the route cache. */
  ghost predicate NeverClash<H>(requests: seq<Request>, size: nat, hash: seq<byte> -> int, router: Router<H>)
    requires size > 0
  {
    forall m, n :: 0 <= m < |requests| && 0 <= n < |requests| && !requests[m].malformed && !requests[n].malformed ==>
      !Clash(Target(requests[m].host, CutPath(requests[m].path)), Target(requests[n].host, CutPath(requests[n].path)),
             size, hash, router)
  }

  /** No well-formed request has a '#' or a NUL in its host, or a NUL in its path before the first '?'. */
  ghost predicate AllPlain(requests: seq<Request>) {
    forall n :: 0 <= n < |requests| && !requests[n].malformed ==>
      35 !in requests[n].host && 0 !in requests[n].host && 0 !in CutPath(requests[n].path)
  }

  /** One handler for each well-formed request, in order: the router's for its host and its path before the first
      '?'. */
  ghost predicate AllRouted<H>(requests: seq<Request>, handlers: seq<H>, router: Router<H>) {
    && |handlers| == GoodBefore(requests, |requests|)
    && forall n :: 0 <= n < |requests| && !requests[n].malformed ==>
         var k := GoodBefore(requests, n);
         k < |handlers| && handlers[k] == router(requests[n].host, CutPath(requests[n].path))
  }

  /** One list of names and values for each well-formed request, in order: what its path has behind the first '?'. */
  ghost predicate AllParsed(requests: seq<Request>, queries: seq<seq<Pair>>) {
    && |queries| == GoodBefore(requests, |requests|)
    && forall n :: 0 <= n < |requests| && !requests[n].malformed ==>
         var k, path := GoodBefore(requests, n), requests[n].path;
         k < |queries| && queries[k] == if 63 in path then QueryPairs(path[|CutPath(path)| + 1..]) else []
  }

  lemma QueriesAreParsed(requests: seq<Request>)
    ensures AllParsed(requests, QueriesOf(requests))
  {
    TargetsAre(requests);
    hide QueriesOf, GoodBefore, QueryPairs;
  }

  /** The router's handlers for the targets are those for the requests. */
  lemma TargetsAreRouted<H>(requests: seq<Request>, router: Router<H>)
    ensures AllRouted(requests, Routed(router, TargetsOf(requests)), router)
  {
    TargetsAre(requests);
    hide TargetsOf, GoodBefore, Routed;
  }

  lemma NoTargetsClash<H>(requests: seq<Request>, size: nat, hash: seq<byte> -> int, router: Router<H>)
    requires size > 0
    ensures AllPlain(requests) ==> NeverClash(requests, size, hash, router)
    ensures NeverClash(requests, size, hash, router) ==>
              forall u, t :: u in TargetsOf(requests) && t in TargetsOf(requests) ==> !Clash(u, t, size, hash, router)
  {
    hide CutPath, GoodBefore, Clash, TargetsOf;
    TargetsComeFrom(requests);
    if AllPlain(requests) {
      forall m, n | 0 <= m < |requests| && 0 <= n < |requests| && !requests[m].malformed && !requests[n].malformed
        ensures !Clash(Target(requests[m].host, CutPath(requests[m].path)),
                       Target(requests[n].host, CutPath(requests[n].path)), size, hash, router)
      {
        PlainNeverClash(Target(requests[m].host, CutPath(requests[m].path)),
                        Target(requests[n].host, CutPath(requests[n].path)), size, hash, router);
      }
    }
  }

  /** A client's whole connection, from any cutting of its stream into reads to the handlers invoked, one for each
      well-formed request handed over: they are the route cache's answers, and the router's own for the host and the
      path before the first '?' unless requests clash, which requests without '#' in the host or NUL never do. The
      requests handed over are those of the stream whenever the reads fit, as they do when the stream is short. */
  method ServeApplication<H(!new)>(stream: seq<byte>, kernel: nat -> nat, sync: nat -> bool, garbage: bool,
                                   size: nat, hash: seq<byte> -> int, junk: seq<byte>, router: Router<H>)
    returns (ghost events: seq<Session.Event>, handlers: seq<H>, queries: seq<seq<Pair>>)
    requires 0 < size < 0x8000_0000 && Asserted(size) && |junk| == MAX_PATH_LENGTH
    ensures Session.Possible(Session.INITIAL, stream, events) && TableOk(NewTable<H>(size, junk))
    ensures var handled := Session.Run(Session.INITIAL, stream, events).ss.handled;
            && handlers == Serve(NewTable(size, junk), hash, router, TargetsOf(handled)) && AllParsed(handled, queries)
            && (NeverClash(handled, size, hash, router) ==> AllRouted(handled, handlers, router))
            && (AllPlain(handled) ==> AllRouted(handled, handlers, router))
            && (Session.AllFit(Session.INITIAL, stream, events) ==> handled == Session.Requests(stream))
    ensures |stream| < MAXREQUESTSIZE ==> Session.AllFit(Session.INITIAL, stream, events)
  {
    hide *;
    var c := new Connection(garbage);
    events := ServeClient(c, stream, kernel, sync);
    InitialIsCoherent();
    if |stream| < MAXREQUESTSIZE { Session.ShortStreamsFit(Session.INITIAL, stream, events); }
    HandledIs(c);
    var targets;
    targets, queries := ParseAll(c.handled);
    var routes;
    routes, handlers := ServeAll(size, hash, junk, targets, router);
    QueriesAreParsed(c.handled);
    TargetsAreRouted(c.handled, router);
    NoTargetsClash(c.handled, size, hash, router);
  }

  lemma HandledIs(c: Connection)
    requires c.Valid()
    ensures c.View().handled == c.handled
  {
  }

  /** Requests written one behind the other, up to one that closes the connection: each of them is answered by the
      router's handler for its host and its path before the first '?', with the names and values behind it, however
      the stream is cut into reads, unless two of them clash. */
  method ServeWritten<H(!new)>(stream: seq<byte>, ghost drafts: seq<RequestText.Draft>, ghost requests: seq<Request>,
                               ghost rest: seq<byte>, kernel: nat -> nat, sync: nat -> bool, garbage: bool,
                               size: nat, hash: seq<byte> -> int, junk: seq<byte>, router: Router<H>)
    returns (handlers: seq<H>, queries: seq<seq<Pair>>)
    requires 0 < size < 0x8000_0000 && Asserted(size) && |junk| == MAX_PATH_LENGTH
    requires |drafts| == |requests| && forall i :: 0 <= i < |drafts| ==> RequestText.StandsFor(drafts[i], requests[i])
    requires forall i :: 0 <= i < |requests| - 1 ==> !Session.Closes(requests[i])
    requires rest == [] || (requests != [] && Session.Closes(requests[|requests| - 1]))
    requires stream == RequestText.StreamOf(drafts, requests) + rest && |stream| < 8192
    ensures |handlers| == |queries| == |requests|
    ensures forall i :: 0 <= i < |requests| ==>
              var path := requests[i].path;
              queries[i] == if 63 in path then QueryPairs(path[|CutPath(path)| + 1..]) else []
    ensures NeverClash(requests, size, hash, router) || AllPlain(requests) ==>
              forall i :: 0 <= i < |requests| ==> handlers[i] == router(requests[i].host, CutPath(requests[i].path))
  {
    hide *;
    ghost var events;
    events, handlers, queries := ServeApplication(stream, kernel, sync, garbage, size, hash, junk, router);
    RequestText.StreamReads(drafts, requests, rest);
    NothingToRead();
    assert requests + [] == requests;
    forall i | 0 <= i < |requests| ensures !requests[i].malformed {
      NotMalformed(drafts[i], requests[i]);
    }
    ServeCount(router, hash, junk, size, TargetsOf(requests));
    TargetsAre(requests);
    AllGood(requests, handlers, queries, router);
  }

  lemma NothingToRead()
    ensures Session.Requests([]) == [] && MAXREQUESTSIZE == 8192
  {
  }

  lemma NotMalformed(d: RequestText.Draft, r: Request)
    requires RequestText.StandsFor(d, r)
    ensures !r.malformed
  {
  }

  lemma ServeCount<H>(router: Router<H>, hash: seq<byte> -> int, junk: seq<byte>, size: nat, targets: seq<Target>)
    requires |junk| == MAX_PATH_LENGTH && TableOk(NewTable<H>(size, junk))
    ensures |Serve(NewTable(size, junk), hash, router, targets)| == |targets|
  {
  }

  /** Without malformed requests the handlers and the pairs are those of the requests, one to one. */
  lemma AllGood<H>(requests: seq<Request>, handlers: seq<H>, queries: seq<seq<Pair>>, router: Router<H>)
    requires forall i :: 0 <= i < |requests| ==> !requests[i].malformed
    ensures GoodBefore(requests, |requests|) == |requests|
    ensures AllParsed(requests, queries) ==>
              |queries| == |requests| && forall i :: 0 <= i < |requests| ==>
                var path := requests[i].path;
                queries[i] == if 63 in path then QueryPairs(path[|CutPath(path)| + 1..]) else []
    ensures AllRouted(requests, handlers, router) ==>
              |handlers| == |requests| && forall i :: 0 <= i < |requests| ==>
                handlers[i] == router(requests[i].host, CutPath(requests[i].path))
  {
    hide CutPath, QueryPairs;
    forall n: nat | n <= |requests| ensures GoodBefore(requests, n) == n {
      AllGoodBefore(requests, n);
    }
    hide GoodBefore;
  }

  lemma {:induction false} AllGoodBefore(requests: seq<Request>, n: nat)
    requires n <= |requests| && forall i :: 0 <= i < |requests| ==> !requests[i].malformed
    ensures GoodBefore(requests, n) == n
    decreases n
  {
    if n > 0 { AllGoodBefore(requests, n - 1); }
  }
}
