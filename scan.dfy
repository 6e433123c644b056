/** The parallel full scan of `MongoDocRepo._all_parallel` and
    `_find_parallel` (mongo_odm/repos/repo.py), made sequential. Each of the
    two workers fetches its half of the collection in its own sort order and
    puts chunks of at most 1000 documents on the queue, then `'DONE'`. The
    queue is the sequence of messages in arrival order, an interleaving of
    the two workers' streams chosen by a schedule. The coordinator drains the
    queue until it has seen one `'DONE'` per worker. */
module Scan {
  import opened Values
  import opened Dicts
  import opened Utils
  import opened Config
  import opened Mongo
  import opened Session

  /** A queue message: a chunk of documents or the `'DONE'` sentinel. */
  datatype Msg = Chunk(docs: seq<Doc>) | Done

  /** The chunk size of `_find_parallel`. */
  const CHUNK_SIZE: nat := 1000

  /** The documents of the chunks, in order. */
  function Flatten(ms: seq<Msg>): seq<Doc>
  {
    if ms == [] then [] else (if ms[0].Chunk? then ms[0].docs else []) + Flatten(ms[1..])
  }

  /** The number of sentinels. */
  function Dones(ms: seq<Msg>): nat
  {
    if ms == [] then 0 else (if ms[0].Done? then 1 else 0) + Dones(ms[1..])
  }

  lemma {:induction false} FlattenAppend(a: seq<Msg>, b: seq<Msg>)
    ensures Flatten(a + b) == Flatten(a) + Flatten(b)
    ensures Dones(a + b) == Dones(a) + Dones(b)
  {
    if a == [] {
      assert a + b == b;
    } else {
      assert (a + b)[1..] == a[1..] + b;
      FlattenAppend(a[1..], b);
    }
  }

  /** Reading more of the queue never lowers the sentinel count. */
  lemma {:induction false} DonesGrow(ms: seq<Msg>, k: nat, l: nat)
    requires k <= l <= |ms|
    ensures Dones(ms[..k]) <= Dones(ms[..l])
  {
    assert ms[..l] == ms[..k] + ms[k..l];
    FlattenAppend(ms[..k], ms[k..l]);
  }

  /** One chunk message per chunk. */
  function ChunkMsgs(css: seq<seq<Doc>>): (ms: seq<Msg>)
    ensures |ms| == |css|
    ensures forall i :: 0 <= i < |css| ==> ms[i] == Chunk(css[i])
  {
    seq(|css|, i requires 0 <= i < |css| => Chunk(css[i]))
  }

  lemma {:induction false} ChunkMsgsFlatten(css: seq<seq<Doc>>)
    ensures Flatten(ChunkMsgs(css)) == Concat(css)
    ensures Dones(ChunkMsgs(css)) == 0
  {
    if css != [] {
      ChunkMsgsFlatten(css[1..]);
      assert ChunkMsgs(css)[1..] == ChunkMsgs(css[1..]);
    }
  }

  /** What a worker puts on the queue: nothing when its query raises (the
      worker dies before `'DONE'`), otherwise its result in chunks of 1000
      and then the sentinel. */
  function WorkerStream(query: Result<seq<Doc>>): seq<Msg>
  {
    if query.Err? then [] else ChunkMsgs(ChunksOf(query.value, CHUNK_SIZE)) + [Done]
  }

  /** The chunks of a worker concatenate to its query result, each holds
      between 1 and 1000 documents, and exactly one `'DONE'` follows, last. */
  lemma WorkerStreamShape(found: seq<Doc>)
    ensures var ms := WorkerStream(Ok(found));
            && Flatten(ms) == found
            && Dones(ms) == 1
            && ms[|ms| - 1] == Done
            && forall i :: 0 <= i < |ms| - 1 ==> ms[i].Chunk? && 1 <= |ms[i].docs| <= CHUNK_SIZE
  {
    var css := ChunksOf(found, CHUNK_SIZE);
    ChunksOfShape(found, CHUNK_SIZE);
    ChunkMsgsFlatten(css);
    FlattenAppend(ChunkMsgs(css), [Done]);
    assert Flatten([Done]) == [] && Dones([Done]) == 1;
  }

  /** `_find_parallel` after its query: puts every chunk, then `'DONE'`. */
  method FindParallel(query: Result<seq<Doc>>) returns (queue: seq<Msg>)
    ensures queue == WorkerStream(query)
  {
    if query.Err? {
      return [];
    }
    var chunked := Chunks(query.value, CHUNK_SIZE);
    var css := chunked.value;
    queue := [];
    for i := 0 to |css|
      invariant queue == ChunkMsgs(css[..i])
    {
      queue := queue + [Chunk(css[i])];
    }
    assert css[..|css|] == css;
    queue := queue + [Done];
  }

  /** The arrival order: the schedule says, while both workers have
      messages left, whose message arrives next (`true`: the first worker;
      an exhausted schedule lets the first go on). */
  function Merge<T>(sched: seq<bool>, a: seq<T>, b: seq<T>): seq<T>
    decreases |a| + |b|
  {
    if a == [] then b
    else if b == [] then a
    else if sched == [] then [a[0]] + Merge(sched, a[1..], b)
    else if sched[0] then [a[0]] + Merge(sched[1..], a[1..], b)
    else [b[0]] + Merge(sched[1..], a, b[1..])
  }

  /** Putting one message in front of a queue. */
  lemma Cons(m: Msg, rest: seq<Msg>)
    ensures multiset(Flatten([m] + rest)) == multiset(if m.Chunk? then m.docs else []) + multiset(Flatten(rest))
    ensures Dones([m] + rest) == (if m.Done? then 1 else 0) + Dones(rest)
  {
    assert ([m] + rest)[1..] == rest;
  }

  /** A non-empty queue is its first message in front of the rest. */
  lemma Uncons(ms: seq<Msg>)
    requires ms != []
    ensures multiset(Flatten(ms)) == multiset(if ms[0].Chunk? then ms[0].docs else []) + multiset(Flatten(ms[1..]))
    ensures Dones(ms) == (if ms[0].Done? then 1 else 0) + Dones(ms[1..])
  {
  }

  /** One step of the interleaving: the schedule's pick arrives first. */
  lemma MergeStep(sched: seq<bool>, a: seq<Msg>, b: seq<Msg>)
    requires a != [] && b != []
    ensures sched == [] ==> Merge(sched, a, b) == [a[0]] + Merge(sched, a[1..], b)
    ensures sched != [] && sched[0] ==> Merge(sched, a, b) == [a[0]] + Merge(sched[1..], a[1..], b)
    ensures sched != [] && !sched[0] ==> Merge(sched, a, b) == [b[0]] + Merge(sched[1..], a, b[1..])
  {
  }

  /** An interleaving keeps every document and every sentinel of both
      streams. */
  lemma {:induction false} MergeKeepsAll(sched: seq<bool>, a: seq<Msg>, b: seq<Msg>)
    ensures multiset(Flatten(Merge(sched, a, b))) == multiset(Flatten(a)) + multiset(Flatten(b))
    ensures Dones(Merge(sched, a, b)) == Dones(a) + Dones(b)
    decreases |a| + |b|
  {
    if a != [] && b != [] {
      MergeStep(sched, a, b);
      var rest := if sched == [] then sched else sched[1..];
      if sched == [] || sched[0] {
        MergeKeepsAll(rest, a[1..], b);
        Cons(a[0], Merge(rest, a[1..], b));
        Uncons(a);
      } else {
        MergeKeepsAll(rest, a, b[1..]);
        Cons(b[0], Merge(rest, a, b[1..]));
        Uncons(b);
      }
    }
  }

  predicate EndsWithDone(ms: seq<Msg>)
  {
    ms != [] && ms[|ms| - 1] == Done
  }

  /** When each stream is empty or ends with `'DONE'`, so does their
      interleaving. */
  lemma {:induction false} MergeEndsWithDone(sched: seq<bool>, a: seq<Msg>, b: seq<Msg>)
    requires a == [] || EndsWithDone(a)
    requires b == [] || EndsWithDone(b)
    ensures Merge(sched, a, b) == [] || EndsWithDone(Merge(sched, a, b))
    decreases |a| + |b|
  {
    if a == [] || b == [] {
    } else if sched == [] || sched[0] {
      var rest := if sched == [] then sched else sched[1..];
      MergeEndsWithDone(rest, a[1..], b);
    } else {
      MergeEndsWithDone(sched[1..], a, b[1..]);
    }
  }

  /** What the coordinator's loop ends with: it has seen one `'DONE'` per
      worker after consuming `consumed` messages, or the queue ran dry first
      and it would block on `queue.get()` for ever. */
  datatype Drain = Drained(out: seq<Doc>, consumed: nat) | Starved(out: seq<Doc>)

  /** The drain loop of `_all_parallel`: yields the documents of every chunk
      in arrival order and stops at the first point where the sentinels
      seen equal the number of workers. */
  method DrainQueue(arrivals: seq<Msg>, workers: nat) returns (r: Drain)
    ensures r.Starved? <==> Dones(arrivals) < workers
    ensures r.Starved? ==> r.out == Flatten(arrivals)
    ensures r.Drained? ==>
              && r.consumed <= |arrivals|
              && Dones(arrivals[..r.consumed]) == workers
              && (forall k :: 0 <= k < r.consumed ==> Dones(arrivals[..k]) < workers)
              && r.out == Flatten(arrivals[..r.consumed])
  {
    var workersDone := 0;
    var out: seq<Doc> := [];
    var i := 0;
    while workersDone != workers
      invariant 0 <= i <= |arrivals|
      invariant workersDone == Dones(arrivals[..i]) <= workers
      invariant out == Flatten(arrivals[..i])
      invariant forall k :: 0 <= k < i ==> Dones(arrivals[..k]) < workers
      decreases |arrivals| - i
    {
      if i == |arrivals| {
        assert arrivals[..i] == arrivals;
        return Starved(out);
      }
      var chunk := arrivals[i];
      assert arrivals[..i + 1] == arrivals[..i] + [chunk];
      FlattenAppend(arrivals[..i], [chunk]);
      assert Flatten([chunk]) == (if chunk.Chunk? then chunk.docs else []);
      if chunk != Done {
        out := out + chunk.docs;
      } else {
        workersDone := workersDone + 1;
      }
      i := i + 1;
    }
    DonesGrow(arrivals, i, |arrivals|);
    assert arrivals[..|arrivals|] == arrivals;
    return Drained(out, i);
  }

  /** When the queue holds exactly as many sentinels as workers, the last
      of them at its end, the coordinator reads the whole queue. */
  lemma DrainReadsAll(arrivals: seq<Msg>, workers: nat, r: Drain)
    requires Dones(arrivals) == workers
    requires forall k :: 0 <= k < |arrivals| ==> Dones(arrivals[..k]) < workers
    requires r.Starved? <==> Dones(arrivals) < workers
    requires r.Drained? ==>
               && r.consumed <= |arrivals|
               && Dones(arrivals[..r.consumed]) == workers
               && r.out == Flatten(arrivals[..r.consumed])
    ensures r == Drained(Flatten(arrivals), |arrivals|)
  {
    assert r.consumed == |arrivals|;
    assert arrivals[..|arrivals|] == arrivals;
  }

  /** The usual reversal. */
  function Reverse<T>(s: seq<T>): (r: seq<T>)
    ensures |r| == |s|
    ensures forall i :: 0 <= i < |s| ==> r[i] == s[|s| - 1 - i]
  {
    if s == [] then [] else [s[|s| - 1]] + Reverse(s[..|s| - 1])
  }

  lemma {:induction false} ReverseMultiset<T>(s: seq<T>)
    ensures multiset(Reverse(s)) == multiset(s)
  {
    if s != [] {
      ReverseMultiset(s[..|s| - 1]);
      assert s == s[..|s| - 1] + [s[|s| - 1]];
    }
  }

  /** The limits of the two workers: `total // 2` for the ascending one, the
      rest for the descending one. */
  function Halves(total: nat): (h: (nat, nat))
    ensures h.0 + h.1 == total
    ensures h.0 <= h.1 <= h.0 + 1
  {
    (total / 2, total - total / 2)
  }

  /** What a worker fetches when its limit is taken as a count: the first
      `limit` documents of its order. */
  function Fetch(sorted: seq<Doc>, limit: nat): (r: seq<Doc>)
    ensures |r| <= limit && |r| <= |sorted|
    ensures r == sorted[..|r|]
    ensures |r| == limit || r == sorted
  {
    if limit < |sorted| then sorted[..limit] else sorted
  }

  /** What a worker fetches as written: `find(limit=limit)`, where the
      server reads a zero limit as no limit at all. */
  function FetchAsWritten(sorted: seq<Doc>, limit: nat): seq<Doc>
  {
    Window(sorted, 0, limit)
  }

  /** The two readings agree for every positive limit. */
  lemma FetchAgrees(sorted: seq<Doc>, limit: nat)
    requires limit > 0
    ensures FetchAsWritten(sorted, limit) == Fetch(sorted, limit)
  {
  }

  /** The queue of a scan of `total` documents whose ascending and
      descending orders are `asc` and `desc`. */
  function Arrivals(sched: seq<bool>, total: nat, asc: seq<Doc>, desc: seq<Doc>): seq<Msg>
  {
    Merge(sched, WorkerStream(Ok(Fetch(asc, Halves(total).0))), WorkerStream(Ok(Fetch(desc, Halves(total).1))))
  }

  function ArrivalsAsWritten(sched: seq<bool>, total: nat, asc: seq<Doc>, desc: seq<Doc>): seq<Msg>
  {
    Merge(sched, WorkerStream(Ok(FetchAsWritten(asc, Halves(total).0))),
                 WorkerStream(Ok(FetchAsWritten(desc, Halves(total).1))))
  }

  /** Two complete worker streams: the queue holds exactly two sentinels,
      the second of them last, so the coordinator reads the whole queue. */
  lemma TwoWorkersDrainAll(sched: seq<bool>, a: seq<Doc>, b: seq<Doc>)
    ensures var ms := Merge(sched, WorkerStream(Ok(a)), WorkerStream(Ok(b)));
            && Dones(ms) == 2
            && (forall k :: 0 <= k < |ms| ==> Dones(ms[..k]) < 2)
            && multiset(Flatten(ms)) == multiset(a) + multiset(b)
  {
    var sa, sb := WorkerStream(Ok(a)), WorkerStream(Ok(b));
    var ms := Merge(sched, sa, sb);
    WorkerStreamShape(a);
    WorkerStreamShape(b);
    MergeKeepsAll(sched, sa, sb);
    MergeEndsWithDone(sched, sa, sb);
    var n := |ms|;
    assert ms == ms[..n - 1] + [ms[n - 1]];
    FlattenAppend(ms[..n - 1], [ms[n - 1]]);
    assert Dones([Done]) == 1;
    forall k | 0 <= k < n ensures Dones(ms[..k]) < 2 {
      DonesGrow(ms, k, n - 1);
    }
  }

  /** The first `|s| - k` elements of the reversal are the reversal of
      the elements from `k` on. */
  lemma {:induction false} ReverseSuffix<T>(s: seq<T>, k: nat)
    requires k <= |s|
    ensures Reverse(s)[..|s| - k] == Reverse(s[k..])
  {
    var r, t := Reverse(s), s[k..];
    forall i | 0 <= i < |s| - k
      ensures r[..|s| - k][i] == Reverse(t)[i]
    {
      assert Reverse(t)[i] == t[|t| - 1 - i];
    }
  }

  /** The two workers' fetches split the ascending order: the first half,
      and the rest read backwards. */
  lemma {:induction false} HalvesCover(asc: seq<Doc>)
    ensures var (half, rest) := Halves(|asc|);
            multiset(Fetch(asc, half)) + multiset(Fetch(Reverse(asc), rest)) == multiset(asc)
  {
    var (half, rest) := Halves(|asc|);
    var desc := Reverse(asc);
    assert Fetch(asc, half) == asc[..half];
    assert Fetch(desc, rest) == Reverse(asc[half..]) by {
      assert Fetch(desc, rest) == desc[..|asc| - half];
      ReverseSuffix(asc, half);
    }
    ReverseMultiset(asc[half..]);
    assert asc == asc[..half] + asc[half..];
  }

  /** With the limits read as counts, the scan yields every document of the
      collection exactly once: the ascending worker takes the first half of
      the ascending order, the descending one the rest, read backwards. This
      needs the descending order to be the reverse of the ascending one. */
  lemma {:induction false} ScanYieldsEveryDocOnce(sched: seq<bool>, docs: seq<Doc>, asc: seq<Doc>, desc: seq<Doc>)
    requires multiset(asc) == multiset(docs) && desc == Reverse(asc)
    ensures var ms := Arrivals(sched, |docs|, asc, desc);
            && Dones(ms) == 2
            && (forall k :: 0 <= k < |ms| ==> Dones(ms[..k]) < 2)
            && multiset(Flatten(ms)) == multiset(docs)
            && |Flatten(ms)| == |docs|
  {
    assert |asc| == |docs| by {
      assert |multiset(asc)| == |asc| && |multiset(docs)| == |docs|;
    }
    HalvesCover(asc);
    var (half, rest) := Halves(|docs|);
    TwoWorkersDrainAll(sched, Fetch(asc, half), Fetch(desc, rest));
    var ms := Arrivals(sched, |docs|, asc, desc);
    assert |multiset(Flatten(ms))| == |Flatten(ms)|;
  }

  /** As written, a collection of exactly one document is scanned twice:
      the ascending worker's limit is 0, which the server reads as no limit,
      so both workers fetch the one document and the coordinator yields it
      twice. */
  lemma AsWrittenYieldsSingleDocTwice(sched: seq<bool>, d: Doc)
    ensures var ms := ArrivalsAsWritten(sched, 1, [d], Reverse([d]));
            && Dones(ms) == 2
            && (forall k :: 0 <= k < |ms| ==> Dones(ms[..k]) < 2)
            && multiset(Flatten(ms)) == multiset{d, d}
            && |Flatten(ms)| == 2
  {
    assert Halves(1) == (0, 1);
    assert FetchAsWritten([d], 0) == [d];
    assert Reverse([d]) == [d];
    assert FetchAsWritten([d], 1) == [d];
    TwoWorkersDrainAll(sched, [d], [d]);
    var ms := ArrivalsAsWritten(sched, 1, [d], Reverse([d]));
    assert |multiset(Flatten(ms))| == |Flatten(ms)|;
  }

  /** The collection a worker scans as written: it looks the repository up
      in the registry by collection name, as `MongoRepos.repo` does, so it
      fails for a collection that is not configured and otherwise reads the
      configured database's collection of that name. */
  function WorkerNamespaceAsWritten(registry: Dict<string, Collection>, ns: Namespace): Result<Namespace>
  {
    if ns.1 in registry.entries then Ok((registry.entries[ns.1].db, ns.1)) else Err(KeyError(ns.1))
  }

  /** As written, a repository over a collection that is not configured
      never finishes a parallel scan: both workers raise before `'DONE'`, so
      the queue holds no sentinel and the coordinator waits for ever. */
  lemma AsWrittenUnconfiguredStarves(sched: seq<bool>, registry: Dict<string, Collection>, ns: Namespace)
    requires ns.1 !in registry.entries
    ensures WorkerNamespaceAsWritten(registry, ns) == Err(KeyError(ns.1))
    ensures var failed: Result<seq<Doc>> := Err(KeyError(ns.1));
            Dones(Merge(sched, WorkerStream(failed), WorkerStream(failed))) < 2
  {
  }
}
