/**
 * `get_model` under `@lru_cache()`: a size that is not one of the five valid
 * ones raises `ValueError` before anything is loaded; otherwise the first
 * successful load of a size is memoised and returned to every later caller.
 * `lru_cache` stores a value only when the call returns, so a load that raises
 * leaves nothing behind and the next call for that size loads again.
 *
 * `whisper.load_model(size).to(device)` is a foreign call: the model takes
 * what it would produce (a fresh model instance or the message of the
 * exception it raises) as a parameter of each call, and takes the answer of
 * `torch.cuda.is_available()` as a parameter too.
 */
module ModelCache {

  import opened Validation

  /** `lru_cache()` with no arguments keeps at most this many results. */
  const LruMaxSize: nat := 128

  datatype Device = Cuda | Cpu

  function DeviceFor(cudaAvailable: bool): Device {
    if cudaAvailable then Cuda else Cpu
  }

  /** A loaded model: its size, the device it was moved to when it was
      loaded, and which instance the loader produced. */
  datatype Handle = Handle(size: string, device: Device, instance: nat)

  /** What the loader does if it is called. */
  datatype LoadResult = Loaded(instance: nat) | LoadFailed(message: string)

  /** What `get_model` returns or raises. */
  datatype GetResult = Got(handle: Handle) | Raised(message: string)

  /** One call of `get_model`, with the environment it meets. */
  datatype Call = Call(size: string, cudaAvailable: bool, load: LoadResult)

  /** The cache after one call, the call's result, and whether the loader ran. */
  datatype Step = Step(entries: map<string, Handle>, result: GetResult, loaded: bool)

  /** The invariant of the memo: only valid sizes, each under its own handle. */
  predicate WellFormed(entries: map<string, Handle>) {
    forall k :: k in entries ==> k in ValidModels && entries[k].size == k
  }

  function InvalidSizeMessage(size: string): string {
    "Invalid model size: " + size
  }

  /** One call of the memoised `get_model`. The loader runs only on a miss
      for a valid size; an entry, once there, is never replaced; only a
      returned handle is stored; and what is returned is what is cached. A hit
      returns the cached handle; a successful load of a valid size returns and
      stores a handle on the device the CUDA probe chose. */
  function GetOrLoad(entries: map<string, Handle>, call: Call): (s: Step)
    ensures WellFormed(entries) ==> WellFormed(s.entries)
    ensures s.loaded ==> call.size in ValidModels && call.size !in entries
    ensures entries.Keys <= s.entries.Keys && forall k :: k in entries ==> s.entries[k] == entries[k]
    ensures s.entries != entries ==> s.result.Got? && s.loaded
    ensures s.result.Got? ==> call.size in s.entries && s.entries[call.size] == s.result.handle
    ensures call.size in entries ==> s == Step(entries, Got(entries[call.size]), false)
    ensures call.size !in entries && call.size in ValidModels && call.load.Loaded? ==>
            var h := Handle(call.size, DeviceFor(call.cudaAvailable), call.load.instance);
            s == Step(entries[call.size := h], Got(h), true)
  {
    if call.size in entries then Step(entries, Got(entries[call.size]), false)
    else if call.size !in ValidModels then Step(entries, Raised(InvalidSizeMessage(call.size)), false)
    else match call.load
      case Loaded(i) =>
        var h := Handle(call.size, DeviceFor(call.cudaAvailable), i);
        Step(entries[call.size := h], Got(h), true)
      case LoadFailed(msg) => Step(entries, Raised(msg), true)
  }

  /** An invalid size raises `ValueError("Invalid model size: ...")` and
      neither loads nor changes the cache. */
  lemma InvalidSizeRaisesBeforeLoad(entries: map<string, Handle>, call: Call)
    requires WellFormed(entries) && call.size !in ValidModels
    ensures GetOrLoad(entries, call) == Step(entries, Raised(InvalidSizeMessage(call.size)), false)
  {
  }

  /** A failed load is not cached: the very next call for the same size loads
      again, whatever it meets. */
  lemma FailedLoadIsRetried(entries: map<string, Handle>, first: Call, second: Call)
    requires first.load.LoadFailed? && first.size !in entries && first.size in ValidModels
    requires second.size == first.size
    ensures GetOrLoad(entries, first) == Step(entries, Raised(first.load.message), true)
    ensures GetOrLoad(GetOrLoad(entries, first).entries, second).loaded
  {
  }

  // ---------------------------------------------------------------------------
  // Sequences of calls
  // ---------------------------------------------------------------------------

  /** The cache after a sequence of calls, each call's result, and for each
      call whether the loader ran. */
  datatype Trace = Trace(entries: map<string, Handle>, results: seq<GetResult>, loads: seq<bool>)

  function Run(entries: map<string, Handle>, calls: seq<Call>): (t: Trace)
    ensures |t.results| == |calls| && |t.loads| == |calls|
    decreases |calls|
  {
    if calls == [] then Trace(entries, [], [])
    else
      var s := GetOrLoad(entries, calls[0]);
      var rest := Run(s.entries, calls[1..]);
      Trace(rest.entries, [s.result] + rest.results, [s.loaded] + rest.loads)
  }

  /** How many calls for `k` ran the loader and got a model back. */
  function SuccessfulLoads(entries: map<string, Handle>, calls: seq<Call>, k: string): nat
    decreases |calls|
  {
    if calls == [] then 0
    else
      var s := GetOrLoad(entries, calls[0]);
      (if calls[0].size == k && s.loaded && s.result.Got? then 1 else 0) + SuccessfulLoads(s.entries, calls[1..], k)
  }

  /** While every load of a valid, uncached size raises, the size stays
      uncached, and every call for it, however late in the sequence, runs
      the loader again and raises the loader's error. */
  lemma {:induction false} FailedLoadsAreAlwaysRetried(entries: map<string, Handle>, calls: seq<Call>, k: string)
    requires k in ValidModels && k !in entries
    requires forall i :: 0 <= i < |calls| && calls[i].size == k ==> calls[i].load.LoadFailed?
    ensures k !in Run(entries, calls).entries
    ensures forall i :: 0 <= i < |calls| && calls[i].size == k ==>
              Run(entries, calls).loads[i] && Run(entries, calls).results[i] == Raised(calls[i].load.message)
    decreases |calls|
  {
    if calls != [] {
      var s := GetOrLoad(entries, calls[0]);
      assert k !in s.entries;
      FailedLoadsAreAlwaysRetried(s.entries, calls[1..], k);
      var t, rest := Run(entries, calls), Run(s.entries, calls[1..]);
      forall i | 0 <= i < |calls| && calls[i].size == k
        ensures t.loads[i] && t.results[i] == Raised(calls[i].load.message)
      {
        if i > 0 {
          assert calls[1..][i - 1] == calls[i];
          assert t.loads[i] == rest.loads[i - 1] && t.results[i] == rest.results[i - 1];
        }
      }
    }
  }

  /** A model is loaded successfully at most once per size, and never for a
      size already cached. */
  lemma {:induction false} AtMostOneSuccessfulLoad(entries: map<string, Handle>, calls: seq<Call>, k: string)
    ensures SuccessfulLoads(entries, calls, k) <= if k in entries then 0 else 1
    decreases |calls|
  {
    if calls != [] {
      var s := GetOrLoad(entries, calls[0]);
      AtMostOneSuccessfulLoad(s.entries, calls[1..], k);
    }
  }

  /** Once a size is cached, every later call for it returns the same handle
      without running the loader, whatever the loader or the CUDA probe would
      say, and the cached handle stays. */
  lemma {:induction false} CachedHandleIsStable(entries: map<string, Handle>, calls: seq<Call>, k: string)
    requires k in entries
    ensures var t := Run(entries, calls);
            && k in t.entries && t.entries[k] == entries[k]
            && forall i :: 0 <= i < |calls| && calls[i].size == k ==> t.results[i] == Got(entries[k]) && !t.loads[i]
    decreases |calls|
  {
    if calls != [] {
      var s := GetOrLoad(entries, calls[0]);
      CachedHandleIsStable(s.entries, calls[1..], k);
      var t, rest := Run(entries, calls), Run(s.entries, calls[1..]);
      forall i | 0 <= i < |calls| && calls[i].size == k
        ensures t.results[i] == Got(entries[k]) && !t.loads[i]
      {
        if i > 0 {
          assert t.results[i] == rest.results[i - 1] && t.loads[i] == rest.loads[i - 1];
        }
      }
    }
  }

  /** After `get_model(k)` has returned a handle, every later call with the
      same `k` returns that very handle and loads nothing. */
  lemma {:induction false} SameHandleAfterSuccess(entries: map<string, Handle>, calls: seq<Call>, i: nat, j: nat)
    requires i < j < |calls| && calls[i].size == calls[j].size
    requires Run(entries, calls).results[i].Got?
    ensures Run(entries, calls).results[j] == Run(entries, calls).results[i]
    ensures !Run(entries, calls).loads[j]
    decreases i
  {
    var s := GetOrLoad(entries, calls[0]);
    var t, rest := Run(entries, calls), Run(s.entries, calls[1..]);
    assert t.results[j] == rest.results[j - 1] && t.loads[j] == rest.loads[j - 1];
    if i == 0 {
      CachedHandleIsStable(s.entries, calls[1..], calls[0].size);
      assert calls[1..][j - 1] == calls[j];
    } else {
      assert t.results[i] == rest.results[i - 1];
      SameHandleAfterSuccess(s.entries, calls[1..], i - 1, j - 1);
    }
  }

  /** A run keeps the memo well formed. */
  lemma {:induction false} RunPreservesWellFormed(entries: map<string, Handle>, calls: seq<Call>)
    requires WellFormed(entries)
    ensures WellFormed(Run(entries, calls).entries)
    decreases |calls|
  {
    if calls != [] {
      RunPreservesWellFormed(GetOrLoad(entries, calls[0]).entries, calls[1..]);
    }
  }

  /** The memo holds at most one entry per valid size, five in all, so the
      128-entry bound of `lru_cache` is never reached and nothing is evicted. */
  lemma NeverEvicts(entries: map<string, Handle>)
    requires WellFormed(entries)
    ensures |entries| <= |ValidModels| == 5 < LruMaxSize
  {
    assert entries.Keys <= ValidModels;
    SubsetCardinality(entries.Keys, ValidModels);
  }

  lemma {:induction false} SubsetCardinality(a: set<string>, b: set<string>)
    requires a <= b
    ensures |a| <= |b|
    decreases |a|
  {
    if a != {} {
      var x :| x in a;
      SubsetCardinality(a - {x}, b - {x});
    }
  }

  // ---------------------------------------------------------------------------
  // The process-wide memo
  // ---------------------------------------------------------------------------

  /** The hidden dictionary of `@lru_cache()` on `get_model`, with a count of
      how often the loader ran for each size. */
  class Cache {
    var entries: map<string, Handle>
    ghost var loadCalls: map<string, nat>

    ghost predicate Valid()
      reads this
    {
      && WellFormed(entries)
      && (forall k :: k in loadCalls ==> k in ValidModels)
      && (forall k :: k in entries ==> k in loadCalls && loadCalls[k] >= 1)
    }

    ghost function LoadCount(k: string): nat
      reads this
    {
      if k in loadCalls then loadCalls[k] else 0
    }

    constructor ()
      ensures Valid() && entries == map[] && loadCalls == map[]
    {
      entries := map[];
      loadCalls := map[];
    }

    /** `get_model(size)`: the new memo and the result are those of GetOrLoad,
        and the load count of `size` goes up by one exactly when the loader ran. */
    method GetModel(size: string, cudaAvailable: bool, load: LoadResult) returns (r: GetResult)
      requires Valid()
      modifies this
      ensures Valid()
      ensures var s := GetOrLoad(old(entries), Call(size, cudaAvailable, load));
              && r == s.result && entries == s.entries
              && loadCalls == if s.loaded then old(loadCalls)[size := old(LoadCount(size)) + 1] else old(loadCalls)
    {
      if size in entries {
        r := Got(entries[size]);
        return;
      }
      if size !in ValidModels {
        r := Raised(InvalidSizeMessage(size));
        return;
      }
      var device := DeviceFor(cudaAvailable);
      loadCalls := loadCalls[size := LoadCount(size) + 1];
      match load
      case LoadFailed(msg) =>
        r := Raised(msg);
      case Loaded(i) =>
        var h := Handle(size, device, i);
        entries := entries[size := h];
        r := Got(h);
    }
  }

  /** Two calls for the same size. Once the first has returned a handle the
      second returns it again and the loader ran at most once between them;
      after a failed load of a valid size the second call loads afresh. */
  method GetTwice(c: Cache, size: string, cuda1: bool, load1: LoadResult, cuda2: bool, load2: LoadResult)
    returns (r1: GetResult, r2: GetResult)
    requires c.Valid()
    modifies c
    ensures c.Valid()
    ensures r1.Got? ==> r2 == r1 && c.LoadCount(size) == old(c.LoadCount(size)) + (if size in old(c.entries) then 0 else 1)
    ensures r1.Raised? && size in ValidModels ==> c.LoadCount(size) == old(c.LoadCount(size)) + 2
    ensures size !in ValidModels ==> r1 == r2 == Raised(InvalidSizeMessage(size)) && c.loadCalls == old(c.loadCalls)
  {
    r1 := c.GetModel(size, cuda1, load1);
    r2 := c.GetModel(size, cuda2, load2);
  }
}
