/** `verify_hits`: raw hits checked by several threads, each filling its own chunk of the result. */
module VerifyHits {
  import opened Wrappers
  import opened Bits

  /** The chunks' common length: hits divided among the workers, rounded up. */
  function ChunkSize(n: nat, workers: nat): (r: nat)
    requires 1 <= workers <= n
    ensures r >= 1 && (n + r - 1) / r <= workers
  {
    CeilingFits(n, workers, (n + workers - 1) / workers);
    (n + workers - 1) / workers
  }

  /** No more chunks than workers. */
  lemma CeilingFits(n: nat, workers: nat, chunk: int)
    requires 1 <= workers <= n && chunk == (n + workers - 1) / workers
    ensures chunk >= 1 && (n + chunk - 1) / chunk <= workers
  {
    CeilingBounds(n, workers);
    var m := (n + chunk - 1) / chunk;
    CeilingBounds(n, chunk);
    assert chunk * (workers + 1) == workers * chunk + chunk;
    if m > workers {
      MulLe(chunk, workers + 1, m);
    }
  }

  lemma CeilingBounds(n: nat, d: nat)
    requires n >= 1 && d >= 1
    ensures (n + d - 1) / d >= 1
    ensures n <= d * ((n + d - 1) / d) < n + d
  {
    var x, m := n + d - 1, (n + d - 1) / d;
    assert x == d * m + x % d;
    if m < 1 {
      MulLe(d, m, 0);
    }
  }

  /** How many hits chunk c has. */
  function ChunkLength(n: nat, chunk: nat, c: nat): int {
    if n - c * chunk < chunk then n - c * chunk else chunk
  }

  function ChunkOf(i: nat, chunk: nat): int
    requires chunk >= 1
  {
    i / chunk
  }

  function OffsetOf(i: nat, chunk: nat): int
    requires chunk >= 1
  {
    i % chunk
  }

  function SlotOf(c: nat, k: nat, chunk: nat): int {
    c * chunk + k
  }

  lemma Split(i: nat, chunk: nat, c: nat, k: nat)
    requires chunk >= 1 && k < chunk
    ensures i == SlotOf(c, k, chunk) <==> ChunkOf(i, chunk) == c && OffsetOf(i, chunk) == k
    ensures OffsetOf(i, chunk) >= 0 && ChunkOf(i, chunk) >= 0
  {
    if i == c * chunk + k {
      DivModUnique(i, chunk, c, k);
    }
    DivNonNegative(i, chunk);
  }

  /** A hit's slot holds its verdict once its thread has come past it. */
  ghost predicate Progress<H, V>(hits: seq<H>, verify: H -> Option<V>, chunk: nat, next: seq<nat>,
                                 out: seq<Option<V>>) {
    && chunk >= 1 && |out| == |hits| && (|hits| + chunk - 1) / chunk == |next|
    && (forall c :: 0 <= c < |next| ==> next[c] <= ChunkLength(|hits|, chunk, c))
    && forall i :: 0 <= i < |hits| ==> SlotRight(hits, verify, chunk, next, out, i)
  }

  ghost predicate SlotRight<H, V>(hits: seq<H>, verify: H -> Option<V>, chunk: nat, next: seq<nat>,
                                  out: seq<Option<V>>, i: nat)
    requires chunk >= 1 && i < |hits| == |out|
  {
    && 0 <= ChunkOf(i, chunk) < |next|
    && out[i] == if OffsetOf(i, chunk) < next[ChunkOf(i, chunk)] then verify(hits[i]) else None
  }

  lemma InSomeChunk(i: nat, n: nat, chunk: nat)
    requires chunk >= 1 && i < n
    ensures 0 <= ChunkOf(i, chunk) < (n + chunk - 1) / chunk
    ensures 0 <= OffsetOf(i, chunk) < ChunkLength(n, chunk, ChunkOf(i, chunk))
  {
    var c, m := i / chunk, (n + chunk - 1) / chunk;
    assert i == chunk * c + i % chunk;
    CeilingBounds(n, chunk);
    if m <= c {
      MulLe(chunk, m, c);
    }
    DivNonNegative(i, chunk);
  }

  lemma SlotExists(n: nat, chunk: nat, c: nat, k: nat)
    requires chunk >= 1 && k < ChunkLength(n, chunk, c)
    ensures k < chunk && 0 <= SlotOf(c, k, chunk) < n
  {
  }

  /** One thread checks its next hit. */
  method StepThread<H, V>(hits: seq<H>, verify: H -> Option<V>, chunk: nat, c: nat, next: array<nat>,
                          out: array<Option<V>>)
    requires c < next.Length && Progress(hits, verify, chunk, next[..], out[..])
    requires next[c] < ChunkLength(|hits|, chunk, c)
    modifies next, out
    ensures Progress(hits, verify, chunk, next[..], out[..])
    ensures next[..] == old(next[..])[c := old(next[c]) + 1]
  {
    hide ChunkLength, ChunkOf, OffsetOf, SlotOf;
    var k := next[c];
    SlotExists(|hits|, chunk, c, k);
    var slot := SlotOf(c, k, chunk);
    ghost var was, wasNext := out[..], next[..];
    out[slot] := verify(hits[slot]);
    next[c] := k + 1;
    forall i | 0 <= i < |hits| ensures SlotRight(hits, verify, chunk, next[..], out[..], i) {
      assert SlotRight(hits, verify, chunk, wasNext, was, i);
      Split(i, chunk, c, k);
    }
  }

  /**
   `verify_hits`, with the threads' steps taken in any order: `schedule` first, then whatever the join
   still waits for. Slot i gets exactly the verdict on hit i.
   */
  method VerifyHits<H, V>(hits: seq<H>, verify: H -> Option<V>, threads: nat, schedule: seq<nat>)
    returns (result: seq<Option<V>>)
    requires threads >= 1
    ensures |result| == |hits| && forall i :: 0 <= i < |hits| ==> result[i] == verify(hits[i])
  {
    if hits == [] {
      return [];
    }
    var workers := if threads < |hits| then threads else |hits|;
    var chunk := ChunkSize(|hits|, workers);
    hide ChunkSize, ChunkLength, ChunkOf, OffsetOf, SlotOf;
    var out := new Option<V>[|hits|](_ => None);
    DivNonNegative(|hits| + chunk - 1, chunk);
    var next := new nat[(|hits| + chunk - 1) / chunk](_ => 0);
    NothingDone(hits, verify, chunk, next[..], out[..]);
    for t := 0 to |schedule|
      invariant Progress(hits, verify, chunk, next[..], out[..])
    {
      var c := schedule[t];
      if c < next.Length && next[c] < ChunkLength(|hits|, chunk, c) {
        StepThread(hits, verify, chunk, c, next, out);
      }
    }
    for c := 0 to next.Length
      invariant Progress(hits, verify, chunk, next[..], out[..])
      invariant forall b :: 0 <= b < c ==> next[b] == ChunkLength(|hits|, chunk, b)
    {
      while next[c] < ChunkLength(|hits|, chunk, c)
        invariant Progress(hits, verify, chunk, next[..], out[..])
        invariant forall b :: 0 <= b < c ==> next[b] == ChunkLength(|hits|, chunk, b)
        decreases ChunkLength(|hits|, chunk, c) - next[c]
      {
        StepThread(hits, verify, chunk, c, next, out);
      }
    }
    result := out[..];
    forall i | 0 <= i < |hits| ensures result[i] == verify(hits[i]) {
      InSomeChunk(i, |hits|, chunk);
      assert SlotRight(hits, verify, chunk, next[..], out[..], i);
    }
  }

  lemma NothingDone<H, V>(hits: seq<H>, verify: H -> Option<V>, chunk: nat, next: seq<nat>, out: seq<Option<V>>)
    requires chunk >= 1 && |out| == |hits| && (|hits| + chunk - 1) / chunk == |next|
    requires (forall c :: 0 <= c < |next| ==> next[c] == 0) && forall i :: 0 <= i < |out| ==> out[i] == None
    ensures Progress(hits, verify, chunk, next, out)
  {
    hide ChunkLength;
    forall c | 0 <= c < |next| ensures next[c] <= ChunkLength(|hits|, chunk, c) {
      ChunkNotEmpty(|hits|, chunk, c);
    }
    forall i | 0 <= i < |hits| ensures SlotRight(hits, verify, chunk, next, out, i) {
      InSomeChunk(i, |hits|, chunk);
    }
  }

  lemma ChunkNotEmpty(n: nat, chunk: nat, c: nat)
    requires chunk >= 1 && c < (n + chunk - 1) / chunk
    ensures ChunkLength(n, chunk, c) >= 0
  {
    var m := (n + chunk - 1) / chunk;
    assert m >= 1 && n >= 1 by {
      if n == 0 {
        DivModUnique(chunk - 1, chunk, 0, chunk - 1);
      }
    }
    CeilingBounds(n, chunk);
    MulLe(chunk, c + 1, m);
  }
}
