/**
 Anti-repeat question selection: the reference filters the recent questions out of the pool and indexes what is left; the
 hot-path version probes the pool circularly from a hashed start index. The hash is passed in.
 */
module QuestionSelection {
  import opened FiniteSets
  import opened Options

  function IdSet(ids: seq<string>): set<string> {
    set id | id in ids
  }

  ghost predicate Distinct(ids: seq<string>) {
    forall i, j | 0 <= i < j < |ids| :: ids[i] != ids[j]
  }

  /** The first eight digest bytes as a number, modulo the size. */
  function StableIndex(digest: string -> nat, seed: string, size: nat): (i: nat)
    requires 0 < size
    ensures i < size
  {
    digest(seed) % size
  }

  // ----- the reference

  /** `[id for id in pool[:n] if id not in recent]`. */
  function Filtered(pool: seq<string>, recent: set<string>, n: nat): (kept: seq<string>)
    requires n <= |pool|
    ensures forall id :: id in kept <==> id in pool[..n] && id !in recent
  {
    if n == 0 then []
    else
      assert pool[..n] == pool[..n - 1] + [pool[n - 1]];
      Filtered(pool, recent, n - 1) + (if pool[n - 1] in recent then [] else [pool[n - 1]])
  }

  function OldCandidates(pool: seq<string>, recent: seq<string>): seq<string> {
    var kept := Filtered(pool, IdSet(recent), |pool|);
    if kept != [] then kept else pool
  }

  function OldSelect(digest: string -> nat, pool: seq<string>, recent: seq<string>, seed: string): Option<string> {
    if pool == [] then None
    else Some(OldCandidates(pool, recent)[StableIndex(digest, seed, |OldCandidates(pool, recent)|)])
  }

  // ----- the fast version

  function Excluded(pool: seq<string>, recent: seq<string>): set<string> {
    if |IdSet(recent)| >= |pool| then {} else IdSet(recent)
  }

  /** The pool entry probed at an offset from the start index. */
  function ProbeAt(pool: seq<string>, start: nat, offset: nat): string
    requires start < |pool| && offset < |pool|
  {
    pool[if start + offset < |pool| then start + offset else start + offset - |pool|]
  }

  /** The first offset, from the given one on, whose entry is not excluded. */
  function FirstHit(pool: seq<string>, excluded: set<string>, start: nat, offset: nat): (hit: Option<nat>)
    requires start < |pool| && offset <= |pool|
    ensures hit.Some? ==> offset <= hit.value < |pool| && ProbeAt(pool, start, hit.value) !in excluded
    ensures forall o | offset <= o < (if hit.Some? then hit.value else |pool|) :: ProbeAt(pool, start, o) in excluded
    decreases |pool| - offset
  {
    if offset == |pool| then None
    else if ProbeAt(pool, start, offset) !in excluded then Some(offset)
    else FirstHit(pool, excluded, start, offset + 1)
  }

  function Selected(pool: seq<string>, recent: seq<string>, start: nat): Option<string>
    requires start < |pool|
  {
    var hit := FirstHit(pool, Excluded(pool, recent), start, 0);
    if hit.Some? then Some(ProbeAt(pool, start, hit.value)) else None
  }

  function NewSelect(digest: string -> nat, pool: seq<string>, recent: seq<string>, seed: string): Option<string> {
    if pool == [] then None else Selected(pool, recent, StableIndex(digest, seed, |pool|))
  }

  /** The probing loop; `probes` counts the positions it looks at. */
  method NewSelectQuestionId(digest: string -> nat, pool: seq<string>, recent: seq<string>, seed: string)
    returns (selected: Option<string>, probes: nat)
    ensures selected == NewSelect(digest, pool, recent, seed)
    ensures forall places: nat | FirstFrom(digest, seed, pool, recent, places) ::
              selected == Some(EntryFrom(digest, seed, pool, places))
    ensures selected.Some? ==> FirstHit(pool, Excluded(pool, recent), StableIndex(digest, seed, |pool|), 0) == Some(probes - 1)
  {
    AnswerOfSeed(digest, seed, pool, recent);
    probes := 0;
    if pool == [] {
      return None, 0;
    }
    var excluded := IdSet(recent);
    if |excluded| >= |pool| {
      excluded := {};
    }
    var startIndex := StableIndex(digest, seed, |pool|);
    for offset := 0 to |pool|
      invariant probes == offset
      invariant FirstHit(pool, excluded, startIndex, offset) == FirstHit(pool, excluded, startIndex, 0)
    {
      Wraps(startIndex + offset, |pool|);
      var questionId := pool[(startIndex + offset) % |pool|];
      probes := probes + 1;
      if questionId !in excluded {
        return Some(questionId), probes;
      }
    }
    selected := None;
  }

  lemma Wraps(i: nat, n: nat)
    requires 0 < n && i < 2 * n
    ensures i % n == if i < n then i else i - n
  {
    if n <= i {
      assert i == 1 * n + (i - n);
    }
  }

  // ----- the pigeonhole argument

  /** The first k entries probed. */
  function Probed(pool: seq<string>, start: nat, k: nat): set<string>
    requires start < |pool| && k <= |pool|
  {
    set o: nat | o < k :: ProbeAt(pool, start, o)
  }

  /** On a pool of distinct ids, two probes of one round never meet. */
  lemma ProbesDiffer(pool: seq<string>, start: nat, o: nat, p: nat)
    requires Distinct(pool) && start < |pool| && o < p < |pool|
    ensures ProbeAt(pool, start, o) != ProbeAt(pool, start, p)
  {
  }

  lemma ProbedNext(pool: seq<string>, start: nat, k: nat)
    requires start < |pool| && k < |pool|
    ensures Probed(pool, start, k + 1) == Probed(pool, start, k) + {ProbeAt(pool, start, k)}
  {
    forall id
      ensures id in Probed(pool, start, k + 1) <==> id in Probed(pool, start, k) + {ProbeAt(pool, start, k)}
    {
      if id in Probed(pool, start, k + 1) {
        var o: nat :| o < k + 1 && ProbeAt(pool, start, o) == id;
        assert o < k ==> id in Probed(pool, start, k);
      }
    }
  }

  /** So k probes look at k different ids. */
  lemma {:induction false} ProbedSize(pool: seq<string>, start: nat, k: nat)
    requires Distinct(pool) && start < |pool| && k <= |pool|
    ensures |Probed(pool, start, k)| == k
  {
    if k != 0 {
      ProbedSize(pool, start, k - 1);
      ProbedNext(pool, start, k - 1);
      forall o: nat | o < k - 1
        ensures ProbeAt(pool, start, o) != ProbeAt(pool, start, k - 1)
      {
        ProbesDiffer(pool, start, o, k - 1);
      }
      OneMore(Probed(pool, start, k - 1), ProbeAt(pool, start, k - 1));
    } else {
      assert Probed(pool, start, 0) == {};
    }
  }

  lemma OneMore(ids: set<string>, id: string)
    requires id !in ids
    ensures |ids + {id}| == |ids| + 1
  {
  }

  /** A full round probes every id of the pool. */
  lemma ProbedAll(pool: seq<string>, start: nat)
    requires start < |pool|
    ensures Probed(pool, start, |pool|) == IdSet(pool)
  {
    forall id | id in pool
      ensures id in Probed(pool, start, |pool|)
    {
      var i :| 0 <= i < |pool| && pool[i] == id;
      var o: nat := if start <= i then i - start else i + |pool| - start;
      assert ProbeAt(pool, start, o) == id;
    }
  }

  /** Everything probed before the hit is excluded, so the hit comes after at most as many probes as excluded pool ids. */
  lemma ProbesBounded(pool: seq<string>, excluded: set<string>, start: nat)
    requires Distinct(pool) && start < |pool|
    ensures var hit := FirstHit(pool, excluded, start, 0);
            (if hit.Some? then hit.value else |pool|) <= |excluded * IdSet(pool)|
  {
    var hit := FirstHit(pool, excluded, start, 0);
    var k := if hit.Some? then hit.value else |pool|;
    ProbedSize(pool, start, k);
    assert Probed(pool, start, k) <= excluded * IdSet(pool);
    SubsetSize(Probed(pool, start, k), excluded * IdSet(pool));
  }

  /** On a pool of distinct ids a question is always found, after at most |set(recent)| + 1 probes. */
  lemma AlwaysFound(pool: seq<string>, recent: seq<string>, start: nat)
    requires Distinct(pool) && start < |pool|
    ensures Selected(pool, recent, start).Some?
    ensures FirstHit(pool, Excluded(pool, recent), start, 0).value + 1 <= |IdSet(recent)| + 1
  {
    var excluded := Excluded(pool, recent);
    ProbesBounded(pool, excluded, start);
    SubsetSize(excluded * IdSet(pool), excluded);
  }

  /** Whatever the pool: None comes out exactly when every id is recent and yet the recent ids are fewer than the entries. */
  lemma NoneIff(pool: seq<string>, recent: seq<string>, start: nat)
    requires start < |pool|
    ensures Selected(pool, recent, start).None? <==> IdSet(pool) <= IdSet(recent) && |IdSet(recent)| < |pool|
  {
    ProbedAll(pool, start);
    if IdSet(pool) <= IdSet(recent) && |IdSet(recent)| < |pool| {
      forall o: nat | o < |pool|
        ensures ProbeAt(pool, start, o) in IdSet(recent)
      {
        assert ProbeAt(pool, start, o) in pool;
      }
    }
    if Selected(pool, recent, start).None? {
      assert ProbeAt(pool, start, 0) in Excluded(pool, recent);
      forall id | id in pool
        ensures id in IdSet(recent)
      {
        assert id in Probed(pool, start, |pool|);
      }
    }
  }

  /** A repeated id is enough: the fast version fails where the reference answers. */
  lemma RepeatedIdFails(digest: string -> nat, seed: string)
    ensures NewSelect(digest, ["q", "q"], ["q"], seed) == None
    ensures OldSelect(digest, ["q", "q"], ["q"], seed) == Some("q")
  {
    var pool, recent := ["q", "q"], ["q"];
    assert IdSet(pool) == IdSet(recent) == {"q"};
    NoneIff(pool, recent, StableIndex(digest, seed, |pool|));
  }

  /** With fewer recent ids than entries, what comes out is never recent. */
  lemma NeverRecent(pool: seq<string>, recent: seq<string>, start: nat)
    requires start < |pool| && |IdSet(recent)| < |pool|
    ensures Selected(pool, recent, start).Some? ==> Selected(pool, recent, start).value !in recent
  {
  }

  // ----- from the seed to the answer

  /** The entry the seed's digest points at, so many places on in circular order. */
  function EntryFrom(digest: string -> nat, seed: string, pool: seq<string>, places: nat): string
    requires pool != []
  {
    pool[(digest(seed) + places) % |pool|]
  }

  /** The recent ids count only while there are fewer of them than entries. */
  ghost predicate Avoided(pool: seq<string>, recent: seq<string>, id: string) {
    |IdSet(recent)| < |pool| && id in recent
  }

  /** Quotient and remainder are determined by what they add up to. */
  lemma RemainderIs(x: nat, q: nat, r: nat, n: nat)
    requires r < n && x == n * q + r
    ensures x % n == r
  {
    var p := x / n;
    assert x == n * p + x % n;
    TimesMore(n, p, q);
    TimesMore(n, q, p);
  }

  lemma {:induction false} TimesMore(n: nat, p: nat, q: nat)
    ensures p < q ==> n * p + n <= n * q
  {
    if p < q {
      assert n * q == n * (q - 1) + n;
      if p < q - 1 {
        TimesMore(n, p, q - 1);
      }
    }
  }

  lemma SmallRemainder(r: nat, n: nat)
    requires r < n
    ensures r % n == r
  {
    RemainderIs(r, 0, r, n);
  }

  lemma ModuloStep(a: nat, o: nat, n: nat)
    requires o < n
    ensures (a + o) % n == (a % n + o) % n
  {
    var q := a / n;
    assert a == n * q + a % n;
    Wraps(a % n + o, n);
    if a % n + o < n {
      RemainderIs(a + o, q, a % n + o, n);
    } else {
      assert n * (q + 1) == n * q + n;
      RemainderIs(a + o, q + 1, a % n + o - n, n);
    }
  }

  lemma ProbeIsEntry(digest: string -> nat, seed: string, pool: seq<string>, o: nat)
    requires o < |pool|
    ensures ProbeAt(pool, digest(seed) % |pool|, o) == EntryFrom(digest, seed, pool, o)
  {
    ModuloStep(digest(seed), o, |pool|);
    Wraps(digest(seed) % |pool| + o, |pool|);
  }

  /** Counting round from where the digest points, the first entry not avoided lies so many places on. */
  ghost predicate FirstFrom(digest: string -> nat, seed: string, pool: seq<string>, recent: seq<string>, places: nat) {
    && places < |pool| && !Avoided(pool, recent, EntryFrom(digest, seed, pool, places))
    && forall o: nat | o < places :: Avoided(pool, recent, EntryFrom(digest, seed, pool, o))
  }

  /** For every seed the answer is that entry, and there is none only if every entry is avoided. */
  lemma AnswerOfSeed(digest: string -> nat, seed: string, pool: seq<string>, recent: seq<string>)
    ensures forall places: nat | FirstFrom(digest, seed, pool, recent, places) ::
              NewSelect(digest, pool, recent, seed) == Some(EntryFrom(digest, seed, pool, places))
    ensures NewSelect(digest, pool, recent, seed).None? ==>
              forall o: nat | o < |pool| :: Avoided(pool, recent, EntryFrom(digest, seed, pool, o))
  {
    if pool != [] {
      var start := digest(seed) % |pool|;
      var hit := FirstHit(pool, Excluded(pool, recent), start, 0);
      forall o: nat | o < |pool|
        ensures ProbeAt(pool, start, o) == EntryFrom(digest, seed, pool, o)
        ensures ProbeAt(pool, start, o) in Excluded(pool, recent) <==> Avoided(pool, recent, EntryFrom(digest, seed, pool, o))
      {
        ProbeIsEntry(digest, seed, pool, o);
      }
      forall places: nat | FirstFrom(digest, seed, pool, recent, places)
        ensures hit == Some(places)
      {
        assert ProbeAt(pool, start, places) !in Excluded(pool, recent);
        if hit.Some? {
          assert ProbeAt(pool, start, hit.value) !in Excluded(pool, recent);
        }
      }
    }
  }

  /** In particular the entry pointed at is the answer unless it is avoided. */
  lemma AnswerAtDigest(digest: string -> nat, seed: string, pool: seq<string>, recent: seq<string>)
    requires pool != [] && !Avoided(pool, recent, pool[digest(seed) % |pool|])
    ensures NewSelect(digest, pool, recent, seed) == Some(pool[digest(seed) % |pool|])
  {
    AnswerOfSeed(digest, seed, pool, recent);
    assert FirstFrom(digest, seed, pool, recent, 0);
  }

  /** Every entry not avoided is the answer for some digest. */
  lemma EveryEntryAnswered(pool: seq<string>, recent: seq<string>, i: nat, seed: string)
    requires i < |pool| && !Avoided(pool, recent, pool[i])
    ensures NewSelect(_ => i, pool, recent, seed) == Some(pool[i])
  {
    AnswerAtDigest(_ => i, seed, pool, recent);
  }

  /** The reference takes the entry the digest points at in what is left, or in the whole pool if nothing is left. */
  lemma ReferenceOfSeed(digest: string -> nat, seed: string, pool: seq<string>, recent: seq<string>)
    requires pool != []
    ensures var left := Left(pool, recent, |pool|);
            OldSelect(digest, pool, recent, seed)
            == Some(if left != [] then left[digest(seed) % |left|] else pool[digest(seed) % |pool|])
  {
    LeftIsFiltered(pool, recent, |pool|);
  }

  /** So every entry left is its answer for some digest. */
  lemma EveryEntryLeftAnswered(pool: seq<string>, recent: seq<string>, i: nat, seed: string)
    requires pool != [] && i < |Left(pool, recent, |pool|)|
    ensures OldSelect(_ => i, pool, recent, seed) == Some(Left(pool, recent, |pool|)[i])
  {
    var digest := (_: string) => i;
    var left := Left(pool, recent, |pool|);
    SmallRemainder(i, |left|);
    ReferenceOfSeed(digest, seed, pool, recent);
  }

  /** The first n entries that are not recent, in order. */
  function Left(pool: seq<string>, recent: seq<string>, n: nat): seq<string>
    requires n <= |pool|
  {
    if n == 0 then [] else Left(pool, recent, n - 1) + if pool[n - 1] in recent then [] else [pool[n - 1]]
  }

  lemma {:induction false} LeftIsFiltered(pool: seq<string>, recent: seq<string>, n: nat)
    requires n <= |pool|
    ensures Left(pool, recent, n) == Filtered(pool, IdSet(recent), n)
  {
    if n != 0 {
      LeftIsFiltered(pool, recent, n - 1);
    }
  }

  // ----- refinement

  /** Some start index selects this id. */
  ghost predicate Reachable(pool: seq<string>, recent: seq<string>, id: string) {
    exists start: nat :: start < |pool| && Selected(pool, recent, start) == Some(id)
  }

  /** The reachable ids are exactly the pool ids not excluded: each is found from its own position. */
  lemma ReachableIff(pool: seq<string>, recent: seq<string>, id: string)
    ensures Reachable(pool, recent, id) <==> id in pool && id !in Excluded(pool, recent)
  {
    if id in pool && id !in Excluded(pool, recent) {
      var start: nat :| start < |pool| && pool[start] == id;
      assert ProbeAt(pool, start, 0) == id;
      assert Selected(pool, recent, start) == Some(id);
    }
  }

  /** What the reference can answer. */
  lemma CandidatesAre(pool: seq<string>, recent: seq<string>, id: string)
    ensures id in OldCandidates(pool, recent) <==> id in pool && (id !in IdSet(recent) || IdSet(pool) <= IdSet(recent))
  {
    var kept := Filtered(pool, IdSet(recent), |pool|);
    assert pool[..|pool|] == pool;
    assert forall x :: x in kept <==> x in pool && x !in IdSet(recent);
    if kept != [] {
      assert kept[0] in kept && kept[0] in IdSet(pool);
    } else {
      assert forall x | x in IdSet(pool) :: x !in kept;
    }
  }

  /** The two can answer differently about this id exactly when the recent ids are many, contain it, and miss some other entry. */
  lemma DiffersAtIff(pool: seq<string>, recent: seq<string>, id: string)
    requires id in pool
    ensures (Reachable(pool, recent, id) <==> id in OldCandidates(pool, recent))
       <==> if |IdSet(recent)| < |pool| then !(IdSet(pool) <= IdSet(recent)) || id !in IdSet(recent)
            else id !in IdSet(recent) || IdSet(pool) <= IdSet(recent)
  {
    ReachableIff(pool, recent, id);
    CandidatesAre(pool, recent, id);
  }

  /** With distinct ids, fewer recent ids than entries cannot cover the pool. */
  lemma TooFewToCover(pool: seq<string>, recent: seq<string>)
    requires Distinct(pool) && pool != [] && |IdSet(recent)| < |pool|
    ensures !(IdSet(pool) <= IdSet(recent))
  {
    AlwaysFound(pool, recent, 0);
    var found := Selected(pool, recent, 0).value;
    assert found in IdSet(pool) && found !in IdSet(recent);
  }

  /**
   The fast version can answer exactly what the reference can answer, on a pool of distinct ids, if and only if the recent
   ids are fewer than the pool, or miss it altogether, or cover it; in particular whenever |set(recent)| < |pool|.
   */
  lemma RefinesIff(pool: seq<string>, recent: seq<string>)
    requires Distinct(pool) && pool != []
    ensures (forall id :: Reachable(pool, recent, id) <==> id in OldCandidates(pool, recent))
       <==> || |IdSet(recent)| < |pool|
            || IdSet(pool) !! IdSet(recent)
            || IdSet(pool) <= IdSet(recent)
  {
    if |IdSet(recent)| < |pool| {
      TooFewToCover(pool, recent);
    }
    forall id
      ensures (Reachable(pool, recent, id) <==> id in OldCandidates(pool, recent))
         <==> |IdSet(recent)| < |pool| || IdSet(pool) <= IdSet(recent) || id !in IdSet(pool) * IdSet(recent)
    {
      if id in pool {
        DiffersAtIff(pool, recent, id);
      } else {
        ReachableIff(pool, recent, id);
        CandidatesAre(pool, recent, id);
      }
    }
    if |IdSet(recent)| >= |pool| && !(IdSet(pool) !! IdSet(recent)) && !(IdSet(pool) <= IdSet(recent)) {
      var id :| id in IdSet(pool) && id in IdSet(recent);
      assert !(Reachable(pool, recent, id) <==> id in OldCandidates(pool, recent));
    }
  }

  /** Such a pool: two ids, one of them recent, and as many recent ids. The fast version can answer the recent one. */
  lemma ManyRecentDiffer()
    ensures var pool, recent := ["q1", "q2"], ["q1", "q3"];
            Reachable(pool, recent, "q1") && "q1" !in OldCandidates(pool, recent)
  {
    var pool, recent := ["q1", "q2"], ["q1", "q3"];
    assert "q1"[1] != "q2"[1] && "q1"[1] != "q3"[1] && "q2"[1] != "q3"[1];
    assert pool[0] in pool && pool[1] in pool && recent[0] in recent && recent[1] in recent;
    assert IdSet(recent) == {"q1", "q3"};
    assert "q2" in IdSet(pool) && "q2" !in IdSet(recent);
    ReachableIff(pool, recent, "q1");
    CandidatesAre(pool, recent, "q1");
  }

  // ----- the benchmark's checks

  /** The reference never repeats either while the recent list is shorter than the pool. */
  lemma OldNeverRecent(digest: string -> nat, pool: seq<string>, recent: seq<string>, seed: string)
    requires Distinct(pool) && |IdSet(recent)| < |pool|
    ensures OldSelect(digest, pool, recent, seed).Some? && OldSelect(digest, pool, recent, seed).value !in recent
  {
    if pool == [] {
      assert false;
    }
    TooFewToCover(pool, recent);
    var candidates := OldCandidates(pool, recent);
    var id := candidates[StableIndex(digest, seed, |candidates|)];
    assert id in candidates;
    CandidatesAre(pool, recent, id);
  }

  lemma {:induction false} IdSetSize(ids: seq<string>, n: nat)
    requires n <= |ids|
    ensures |IdSet(ids[..n])| <= n
  {
    if n == 0 {
      assert IdSet(ids[..0]) == {};
    } else {
      IdSetSize(ids, n - 1);
      assert ids[..n] == ids[..n - 1] + [ids[n - 1]];
      assert IdSet(ids[..n]) == IdSet(ids[..n - 1]) + {ids[n - 1]};
    }
  }

  datatype Failure = NoneReturned | Repeated

  /** One benchmark run over its seeds; on a non-empty pool of distinct ids neither check can fire, for either variant. */
  method RunVariant(digest: string -> nat, useNew: bool, pool: seq<string>, recent: seq<string>, seeds: seq<string>)
    returns (result: Result<seq<string>, Failure>)
    ensures Distinct(pool) && pool != [] ==> result.Ok?
    ensures result.Ok? ==>
              |result.value| == |seeds| && forall k | 0 <= k < |seeds| ::
                Some(result.value[k]) == if useNew then NewSelect(digest, pool, recent, seeds[k]) else OldSelect(digest, pool, recent, seeds[k])
  {
    var picked := [];
    for k := 0 to |seeds|
      invariant |picked| == k
      invariant forall j | 0 <= j < k ::
                  Some(picked[j]) == if useNew then NewSelect(digest, pool, recent, seeds[j]) else OldSelect(digest, pool, recent, seeds[j])
    {
      var selected, probes := None, 0;
      if useNew {
        selected, probes := NewSelectQuestionId(digest, pool, recent, seeds[k]);
      } else {
        selected := OldSelect(digest, pool, recent, seeds[k]);
      }
      ChecksHold(digest, useNew, pool, recent, seeds[k]);
      if selected.None? {
        return Err(NoneReturned);
      }
      if |recent| < |pool| && selected.value in recent {
        return Err(Repeated);
      }
      picked := picked + [selected.value];
    }
    result := Ok(picked);
  }

  lemma ChecksHold(digest: string -> nat, useNew: bool, pool: seq<string>, recent: seq<string>, seed: string)
    ensures var selected := if useNew then NewSelect(digest, pool, recent, seed) else OldSelect(digest, pool, recent, seed);
            Distinct(pool) && pool != [] ==> selected.Some? && (|recent| < |pool| ==> selected.value !in recent)
  {
    if Distinct(pool) && pool != [] {
      IdSetSize(recent, |recent|);
      assert recent[..|recent|] == recent;
      if useNew {
        AlwaysFound(pool, recent, StableIndex(digest, seed, |pool|));
      } else if |recent| < |pool| {
        OldNeverRecent(digest, pool, recent, seed);
      }
    }
  }
}
