/**
 * The checksum worker pool of hashFiles (generate_manifest.js:40-60).
 *
 * Node runs the workers on one thread: `const myIdx = idx++` runs without
 * interruption, and a worker only yields at `await hashFileMD5(abs)`. The
 * pool is therefore a plain object holding the shared cursor `idx` and the
 * results array, and the event loop that resumes suspended workers in an
 * unknown order is a loop driven by a `schedule` parameter. Hashing a file is
 * an oracle `hash` from the file's path to a digest or a read error.
 */
module Pool {
  import opened Wrappers
  import opened Tree

  /** How `hashFileMD5(abs)` settles: resolved with a hex digest, or rejected. */
  datatype HashOutcome = Digest(md5: string) | ReadError

  /** `{ path: rel, md5 }`. */
  datatype HashResult = HashResult(path: string, md5: string)

  /** What slot `i` receives when file `i`'s hash settles: an entry on success, nothing on failure. */
  function Outcome(files: seq<FileEntry>, hash: Path -> HashOutcome, i: nat): (r: Option<HashResult>)
    requires i < |files|
    ensures r.Some? <==> hash(files[i].abs).Digest?
    ensures r.Some? ==> r.value.path == files[i].rel && hash(files[i].abs) == Digest(r.value.md5)
  {
    match hash(files[i].abs)
    case Digest(md5) => Some(HashResult(files[i].rel, md5))
    case ReadError => None
  }

  /** File `i` has settled and was hashed successfully. */
  predicate Hashed(files: seq<FileEntry>, hash: Path -> HashOutcome, done: set<nat>, i: nat)
  {
    i in done && i < |files| && hash(files[i].abs).Digest?
  }

  /**
   * The length of a JavaScript array after writes to the successful slots
   * among the first `k`: one past the highest such index, or 0 if none.
   */
  function HighWater(files: seq<FileEntry>, hash: Path -> HashOutcome, done: set<nat>, k: nat): (h: nat)
    requires k <= |files|
    ensures h <= k
    ensures h > 0 ==> Hashed(files, hash, done, h - 1)
    ensures forall j :: h <= j < k ==> !Hashed(files, hash, done, j)
    decreases k
  {
    if k == 0 then 0
    else if Hashed(files, hash, done, k - 1) then k
    else HighWater(files, hash, done, k - 1)
  }

  /**
   * The results array once the files with indices in `done` have settled:
   * a sparse array whose holes (never-written slots) are `None`.
   */
  function Slots(files: seq<FileEntry>, hash: Path -> HashOutcome, done: set<nat>): (r: seq<Option<HashResult>>)
    ensures |r| <= |files|
    ensures forall i :: 0 <= i < |r| ==> (r[i].Some? <==> Hashed(files, hash, done, i))
    ensures forall i :: 0 <= i < |r| && r[i].Some? ==> r[i] == Outcome(files, hash, i)
    ensures |r| > 0 ==> r[|r| - 1].Some?
    ensures forall i :: |r| <= i < |files| ==> !Hashed(files, hash, done, i)
  {
    var len := HighWater(files, hash, done, |files|);
    seq(len, i requires 0 <= i < len => if i in done then Outcome(files, hash, i) else None)
  }

  function AllIndices(n: nat): set<nat>
  {
    set k | k in Range(n)
  }

  /** The array hashFiles resolves to once every file has settled. */
  function Manifest(files: seq<FileEntry>, hash: Path -> HashOutcome): (r: seq<Option<HashResult>>)
    ensures |r| <= |files|
    ensures |r| > 0 ==> r[|r| - 1].Some?
  {
    Slots(files, hash, AllIndices(|files|))
  }

  function Range(n: nat): (r: seq<nat>)
    ensures |r| == n && forall k :: 0 <= k < n ==> r[k] == k
  {
    seq(n, k requires 0 <= k < n => k)
  }

  function Min(a: nat, b: nat): nat
  {
    if a < b then a else b
  }

  /**
   * `a[i] = v` on a JavaScript array: slot `i` holds `v`, the array grows to
   * `i + 1` when it was shorter, the new slots in between are holes, and
   * nothing else changes.
   */
  function Store<T>(a: seq<Option<T>>, i: nat, v: T): (r: seq<Option<T>>)
    ensures |r| == if i < |a| then |a| else i + 1
    ensures r[i] == Some(v)
    ensures forall j :: 0 <= j < |r| && j != i ==> r[j] == if j < |a| then a[j] else None
  {
    if i < |a| then a[i := Some(v)] else a + seq(i - |a|, _ => None) + [Some(v)]
  }

  lemma HighWaterUnique(files: seq<FileEntry>, hash: Path -> HashOutcome, done: set<nat>, k: nat, h: nat)
    requires h <= k <= |files|
    requires h > 0 ==> Hashed(files, hash, done, h - 1)
    requires forall j :: h <= j < k ==> !Hashed(files, hash, done, j)
    ensures h == HighWater(files, hash, done, k)
  {
  }

  /**
   * A successful settle writes its slot: storing file `i`'s entry into the
   * array for `done` gives the array for `done + {i}`.
   */
  lemma StoreSettles(files: seq<FileEntry>, hash: Path -> HashOutcome, done: set<nat>, i: nat, r: HashResult)
    requires i < |files| && i !in done
    requires Outcome(files, hash, i) == Some(r)
    ensures Store(Slots(files, hash, done), i, r) == Slots(files, hash, done + {i})
  {
    var before := Slots(files, hash, done);
    var after := Slots(files, hash, done + {i});
    var h := HighWater(files, hash, done, |files|);
    var h' := if i < h then h else i + 1;
    forall j | h' <= j < |files|
      ensures !Hashed(files, hash, done + {i}, j)
    {
      assert !Hashed(files, hash, done, j);
    }
    if i < h {
      assert Hashed(files, hash, done, h - 1);
    }
    HighWaterUnique(files, hash, done + {i}, |files|, h');
    var stored := Store(before, i, r);
    assert |stored| == |after|;
    forall j | 0 <= j < |after|
      ensures stored[j] == after[j]
    {
      if j != i && j >= h && j in done {
        assert !Hashed(files, hash, done, j);
      }
    }
  }

  /** A failed settle writes nothing: the array for `done + {i}` is the array for `done`. */
  lemma FailureLeavesSlots(files: seq<FileEntry>, hash: Path -> HashOutcome, done: set<nat>, i: nat)
    requires i < |files|
    requires Outcome(files, hash, i) == None
    ensures Slots(files, hash, done + {i}) == Slots(files, hash, done)
  {
    var h := HighWater(files, hash, done, |files|);
    forall j | h <= j < |files|
      ensures !Hashed(files, hash, done + {i}, j)
    {
      assert !Hashed(files, hash, done, j);
    }
    if h > 0 {
      assert Hashed(files, hash, done, h - 1);
    }
    HighWaterUnique(files, hash, done + {i}, |files|, h);
  }

  /** Removing the element at `pick` keeps the others, in order, once each. */
  lemma {:induction false} RemoveAt(s: seq<nat>, pick: nat)
    requires pick < |s|
    ensures var r := s[..pick] + s[pick + 1..];
      |r| == |s| - 1 &&
      (forall k :: 0 <= k < |r| ==> r[k] == s[if k < pick then k else k + 1]) &&
      multiset(r) + multiset{s[pick]} == multiset(s) &&
      (Distinct(s) ==> Distinct(r)) &&
      (forall i :: i in s && i != s[pick] ==> i in r)
  {
    var r := s[..pick] + s[pick + 1..];
    assert s == s[..pick] + [s[pick]] + s[pick + 1..];
    forall i | i in s && i != s[pick]
      ensures i in r
    {
      var k :| 0 <= k < |s| && s[k] == i;
      assert r[if k < pick then k else k - 1] == i;
    }
  }

  /** Overwriting the element at `pick` with `x` keeps the others. */
  lemma {:induction false} ReplaceAt(s: seq<nat>, pick: nat, x: nat)
    requires pick < |s|
    ensures var r := s[pick := x];
      multiset(r) + multiset{s[pick]} == multiset(s) + multiset{x} &&
      (Distinct(s) && x !in s ==> Distinct(r)) &&
      (forall i :: i in s && i != s[pick] ==> i in r)
  {
    var r := s[pick := x];
    assert s == s[..pick] + [s[pick]] + s[pick + 1..];
    assert r == s[..pick] + [x] + s[pick + 1..];
    forall i | i in s && i != s[pick]
      ensures i in r
    {
      var k :| 0 <= k < |s| && s[k] == i;
      assert r[k] == i;
    }
  }

  /**
   * The bookkeeping of a run in progress: the indices below the cursor were
   * claimed once each, in order; each claimed index has either settled or is
   * awaited by exactly one suspended worker.
   */
  ghost predicate InFlight(idx: nat, completed: set<nat>, pending: seq<nat>, claims: seq<nat>, settled: seq<nat>)
  {
    claims == Range(idx) &&
    (forall i :: i in completed ==> i < idx) &&
    (forall k :: 0 <= k < |pending| ==> pending[k] < idx && pending[k] !in completed) &&
    Distinct(pending) &&
    (forall i :: 0 <= i < idx ==> i in completed || i in pending) &&
    multiset(settled) + multiset(pending) == multiset(claims)
  }

  /** A worker resumes, settles its index and claims the next one. */
  lemma ResumeAndClaim(idx: nat, completed: set<nat>, pending: seq<nat>, claims: seq<nat>, settled: seq<nat>, pick: nat)
    requires InFlight(idx, completed, pending, claims, settled)
    requires pick < |pending|
    ensures InFlight(idx + 1, completed + {pending[pick]}, pending[pick := idx], claims + [idx], settled + [pending[pick]])
  {
    var p := pending[pick];
    var pending' := pending[pick := idx];
    ReplaceAt(pending, pick, idx);
    assert idx !in pending;
    assert Range(idx + 1) == Range(idx) + [idx];
    forall k | 0 <= k < |pending'|
      ensures pending'[k] < idx + 1 && pending'[k] !in completed + {p}
    {
    }
    forall i | 0 <= i < idx + 1
      ensures i in completed + {p} || i in pending'
    {
      if i == idx {
        assert pending'[pick] == idx;
      }
    }
  }

  /** A worker resumes, settles its index, finds the cursor exhausted and returns. */
  lemma ResumeAndReturn(idx: nat, completed: set<nat>, pending: seq<nat>, claims: seq<nat>, settled: seq<nat>, pick: nat)
    requires InFlight(idx, completed, pending, claims, settled)
    requires pick < |pending|
    ensures InFlight(idx, completed + {pending[pick]}, pending[..pick] + pending[pick + 1..], claims, settled + [pending[pick]])
  {
    RemoveAt(pending, pick);
  }

  /** With no worker suspended, every claimed index has settled, once. */
  lemma AllSettled(idx: nat, completed: set<nat>, claims: seq<nat>, settled: seq<nat>)
    requires InFlight(idx, completed, [], claims, settled)
    ensures completed == AllIndices(idx)
    ensures multiset(settled) == multiset(claims)
  {
    forall i | i in completed
      ensures i in AllIndices(idx)
    {
      assert Range(idx)[i] == i;
    }
  }

  /**
   * Slot `i` of the final array holds `{ path: rel, md5 }` of file `i` exactly
   * when hashing file `i` succeeded; a failed file leaves a hole, or no slot
   * at all when no later file succeeded.
   */
  lemma ManifestSlot(files: seq<FileEntry>, hash: Path -> HashOutcome, i: nat)
    requires i < |files|
    ensures var m := Manifest(files, hash);
      (hash(files[i].abs).Digest? ==> i < |m| && m[i] == Some(HashResult(files[i].rel, hash(files[i].abs).md5))) &&
      (hash(files[i].abs).ReadError? && i < |m| ==> m[i] == None)
  {
    var m := Manifest(files, hash);
    assert i in AllIndices(|files|) by {
      assert Range(|files|)[i] == i;
    }
    if hash(files[i].abs).Digest? {
      assert Hashed(files, hash, AllIndices(|files|), i);
    }
  }

  /**
   * The array is empty exactly when no file was hashed; otherwise its last
   * slot is filled, and it is one longer than the highest successful index.
   */
  lemma ManifestLength(files: seq<FileEntry>, hash: Path -> HashOutcome)
    ensures var m := Manifest(files, hash);
      (|m| == 0 <==> forall i :: 0 <= i < |files| ==> hash(files[i].abs).ReadError?) &&
      (|m| > 0 ==> m[|m| - 1].Some?) &&
      (forall i :: |m| <= i < |files| ==> hash(files[i].abs).ReadError?)
  {
    var all := AllIndices(|files|);
    var m := Manifest(files, hash);
    forall i | 0 <= i < |files|
      ensures i in all
    {
      assert Range(|files|)[i] == i;
    }
    if |m| > 0 {
      assert Hashed(files, hash, all, |m| - 1);
    }
    forall i | |m| <= i < |files|
      ensures hash(files[i].abs).ReadError?
    {
      assert !Hashed(files, hash, all, i);
    }
    if |m| == 0 {
    } else {
      assert hash(files[|m| - 1].abs).Digest?;
    }
  }

  /** The entries of a sparse array in index order, holes skipped. */
  function Compact<T>(a: seq<Option<T>>): seq<T>
  {
    if a == [] then []
    else Compact(a[..|a| - 1]) + (match a[|a| - 1] case Some(v) => [v] case None => [])
  }

  /** The successfully hashed files among the first `k`, as results, in discovery order. */
  function Successes(files: seq<FileEntry>, hash: Path -> HashOutcome, k: nat): seq<HashResult>
    requires k <= |files|
  {
    if k == 0 then []
    else Successes(files, hash, k - 1) + (match Outcome(files, hash, k - 1) case Some(r) => [r] case None => [])
  }

  /** Below its length, the final array holds each file's outcome; beyond it every file failed. */
  lemma ManifestOutcome(files: seq<FileEntry>, hash: Path -> HashOutcome, i: nat)
    requires i < |files|
    ensures i < |Manifest(files, hash)| ==> Manifest(files, hash)[i] == Outcome(files, hash, i)
    ensures i >= |Manifest(files, hash)| ==> Outcome(files, hash, i) == None
  {
    assert i in AllIndices(|files|) by {
      assert Range(|files|)[i] == i;
    }
    assert i >= |Manifest(files, hash)| ==> !Hashed(files, hash, AllIndices(|files|), i);
  }

  lemma {:induction false} CompactPrefix(files: seq<FileEntry>, hash: Path -> HashOutcome, k: nat)
    requires k <= |files|
    ensures Compact(Manifest(files, hash)[..Min(k, |Manifest(files, hash)|)]) == Successes(files, hash, k)
  {
    var m := Manifest(files, hash);
    if k == 0 {
      assert m[..0] == [];
    } else {
      CompactPrefix(files, hash, k - 1);
      ManifestOutcome(files, hash, k - 1);
      if k - 1 < |m| {
        assert m[..k][..k - 1] == m[..k - 1];
      }
    }
  }

  /**
   * Dropping the holes from the array gives one entry per successfully hashed
   * file, in discovery order, however the hashes settled.
   */
  lemma ManifestInDiscoveryOrder(files: seq<FileEntry>, hash: Path -> HashOutcome)
    ensures Compact(Manifest(files, hash)) == Successes(files, hash, |files|)
  {
    CompactPrefix(files, hash, |files|);
    var m := Manifest(files, hash);
    assert m[..|m|] == m;
  }

  /**
   * The state the workers share: the cursor `idx` and the `results` array.
   * `completed` records which claimed files have settled; `results` is
   * always the array determined by that set alone, so the order in which
   * hashes settle cannot show in it.
   */
  class HashPool {
    const files: seq<FileEntry>
    const hash: Path -> HashOutcome
    var idx: nat
    var results: seq<Option<HashResult>>
    ghost var completed: set<nat>

    ghost predicate Valid()
      reads this
    {
      idx <= |files| &&
      (forall i :: i in completed ==> i < idx) &&
      results == Slots(files, hash, completed)
    }

    /** `const results = []; let idx = 0;` */
    constructor(files: seq<FileEntry>, hash: Path -> HashOutcome)
      ensures Valid()
      ensures this.files == files && this.hash == hash
      ensures idx == 0 && completed == {} && results == []
    {
      this.files := files;
      this.hash := hash;
      idx := 0;
      results := [];
      completed := {};
    }

    /** `const myIdx = idx++`: a worker claims the next unclaimed index. */
    method Claim() returns (myIdx: nat)
      requires Valid() && idx < |files|
      modifies this`idx
      ensures Valid()
      ensures myIdx == old(idx) && idx == old(idx) + 1
    {
      myIdx := idx;
      idx := idx + 1;
    }

    /**
     * The worker resumes when `hashFileMD5(abs)` settles: on success it
     * writes `results[myIdx] = { path: rel, md5 }`; on failure the catch
     * block leaves the slot alone.
     */
    method Settle(myIdx: nat)
      requires Valid() && myIdx < idx && myIdx !in completed
      modifies this`results, this`completed
      ensures Valid()
      ensures completed == old(completed) + {myIdx}
      ensures results == match Outcome(files, hash, myIdx)
                         case Some(r) => Store(old(results), myIdx, r)
                         case None => old(results)
    {
      match hash(files[myIdx].abs) {
        case Digest(md5) =>
          var r := HashResult(files[myIdx].rel, md5);
          StoreSettles(files, hash, completed, myIdx, r);
          results := Store(results, myIdx, r);
        case ReadError =>
          FailureLeavesSlots(files, hash, completed, myIdx);
      }
      completed := completed + {myIdx};
    }
  }

  /**
   * The event loop resumes the worker suspended at position `pick`: its hash
   * settles, then the worker either claims the next index and suspends again,
   * or finds the cursor exhausted and returns.
   */
  method Resume(pool: HashPool, pending: seq<nat>, pick: nat, ghost claims: seq<nat>, ghost settled: seq<nat>)
    returns (pending': seq<nat>, ghost claims': seq<nat>, ghost settled': seq<nat>)
    requires pool.Valid() && InFlight(pool.idx, pool.completed, pending, claims, settled)
    requires pick < |pending|
    modifies pool
    ensures pool.Valid() && InFlight(pool.idx, pool.completed, pending', claims', settled')
    ensures pool.completed == old(pool.completed) + {pending[pick]}
    ensures settled' == settled + [pending[pick]]
    ensures pool.results == match Outcome(pool.files, pool.hash, pending[pick])
                            case Some(r) => Store(old(pool.results), pending[pick], r)
                            case None => old(pool.results)
    ensures old(pool.idx) < |pool.files| ==>
      pool.idx == old(pool.idx) + 1 && claims' == claims + [old(pool.idx)] && pending' == pending[pick := old(pool.idx)]
    ensures old(pool.idx) == |pool.files| ==>
      pool.idx == old(pool.idx) && claims' == claims && pending' == pending[..pick] + pending[pick + 1..]
  {
    var myIdx := pending[pick];
    if pool.idx < |pool.files| {
      ResumeAndClaim(pool.idx, pool.completed, pending, claims, settled, pick);
    } else {
      ResumeAndReturn(pool.idx, pool.completed, pending, claims, settled, pick);
    }
    pool.Settle(myIdx);
    settled' := settled + [myIdx];
    if pool.idx < |pool.files| {
      // the same worker loops and claims again
      var next := pool.Claim();
      claims' := claims + [next];
      pending' := pending[pick := next];
    } else {
      // the cursor is exhausted: this worker returns
      claims' := claims;
      pending' := pending[..pick] + pending[pick + 1..];
    }
  }

  /**
   * hashFiles(files): start `min(concurrency, files.length)` workers, then
   * let the event loop resume suspended workers, in the order `schedule`
   * picks, until all have finished. Whatever the schedule and whatever the
   * positive concurrency, the result is the same array: every index is
   * claimed once in cursor order (`claims`), every claim settles once
   * (`settled`, in settling order), and slot `i` depends on file `i` alone.
   * `inFlight` records how many hashes are awaited after start-up and after
   * each resumption: `min(concurrency, files.length)` at first, never more.
   */
  method HashFiles(files: seq<FileEntry>, hash: Path -> HashOutcome, concurrency: nat, schedule: seq<nat>)
    returns (results: seq<Option<HashResult>>, ghost claims: seq<nat>, ghost settled: seq<nat>, ghost inFlight: seq<nat>)
    ensures concurrency > 0 ==> results == Manifest(files, hash)
    ensures concurrency == 0 ==> results == []
    ensures claims == Range(if concurrency == 0 then 0 else |files|)
    ensures multiset(settled) == multiset(claims)
    ensures |inFlight| > 0 && inFlight[0] == Min(concurrency, |files|)
    ensures forall k :: 0 <= k < |inFlight| ==> inFlight[k] <= Min(concurrency, |files|)
  {
    var pool := new HashPool(files, hash);
    var workers := Min(concurrency, |files|);
    // the index each suspended worker is waiting on
    var pending: seq<nat> := [];
    claims, settled := [], [];

    // Array.from calls each worker, which runs up to its first await
    for w := 0 to workers
      invariant pool.Valid() && pool.files == files && pool.hash == hash
      invariant pool.completed == {}
      invariant pool.idx == w && pending == claims == Range(w)
    {
      if pool.idx < |files| {
        var myIdx := pool.Claim();
        pending := pending + [myIdx];
        claims := claims + [myIdx];
      }
    }

    assert InFlight(pool.idx, pool.completed, pending, claims, settled) by {
      forall i | 0 <= i < pool.idx
        ensures i in pending
      {
        assert pending[i] == i;
      }
    }

    inFlight := [|pending|];

    // Promise.all: resume suspended workers until none is left
    var step := 0;
    while pending != []
      invariant pool.Valid() && pool.files == files && pool.hash == hash
      invariant InFlight(pool.idx, pool.completed, pending, claims, settled)
      invariant |pending| <= workers
      invariant |inFlight| > 0 && inFlight[0] == workers
      invariant forall k :: 0 <= k < |inFlight| ==> inFlight[k] <= workers
      invariant concurrency > 0 && pending == [] ==> pool.idx == |files|
      invariant concurrency == 0 ==> pool.idx == 0 && pending == []
      decreases 2 * (|files| - pool.idx) + |pending|
    {
      var pick := if step < |schedule| then schedule[step] % |pending| else 0;
      pending, claims, settled := Resume(pool, pending, pick, claims, settled);
      inFlight := inFlight + [|pending|];
      step := step + 1;
    }

    AllSettled(pool.idx, pool.completed, claims, settled);
    results := pool.results;
  }
}
