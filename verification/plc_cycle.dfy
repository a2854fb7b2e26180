/**
 The order of one PLC cycle over all backends (main.c:29-41 and 43-98, core/runtime/runtime.c:113-157): RPC poll, then
 cycle_begin of every backend, then the tasks, then cycle_end of every backend. Only output bytes are followed.
 */
module PlcCycle {
  import opened OutputBuffers

  /** One output byte of one backend. */
  datatype Staged = Staged(backend: nat, write: Write)

  ghost function Objects(backends: seq<OutputSide?>): set<object> {
    set i | 0 <= i < |backends| && backends[i] != null :: backends[i]
  }

  ghost function Buffers(backends: seq<OutputSide?>): set<object> {
    (set i | 0 <= i < |backends| && backends[i] != null :: backends[i].buffer0)
    + (set i | 0 <= i < |backends| && backends[i] != null :: backends[i].buffer1)
  }

  /** Every driver is valid and owns its object and buffers alone; null stands for a missing driver. */
  ghost predicate Valid(backends: seq<OutputSide?>)
    reads Objects(backends)
  {
    && (forall i :: 0 <= i < |backends| && backends[i] != null ==> backends[i].Valid())
    && Apart(backends)
  }

  ghost predicate Apart(backends: seq<OutputSide?>) {
    forall i, j :: 0 <= i < j < |backends| && backends[i] != null && backends[j] != null ==>
      && backends[i] != backends[j]
      && backends[i].buffer0 != backends[j].buffer0 && backends[i].buffer0 != backends[j].buffer1
      && backends[i].buffer1 != backends[j].buffer0 && backends[i].buffer1 != backends[j].buffer1
  }

  /** The published image of each backend, and the one being staged; [] for a missing driver. */
  ghost function Published(backends: seq<OutputSide?>): (r: seq<Image>)
    reads Objects(backends), Buffers(backends)
    ensures |r| == |backends|
  {
    seq(|backends|, i requires 0 <= i < |backends| reads Objects(backends), Buffers(backends) =>
      if backends[i] == null then [] else backends[i].Published())
  }

  ghost function Staging(backends: seq<OutputSide?>): (r: seq<Image>)
    reads Objects(backends), Buffers(backends)
    ensures |r| == |backends|
  {
    seq(|backends|, i requires 0 <= i < |backends| reads Objects(backends), Buffers(backends) =>
      if backends[i] == null then [] else backends[i].Staging())
  }

  method BeginOne(backends: seq<OutputSide?>, i: nat)
    requires Valid(backends) && i < |backends|
    modifies Objects(backends), Buffers(backends)
    ensures Valid(backends)
    ensures Published(backends) == old(Published(backends))
    ensures Staging(backends) == old(Staging(backends))[i := old(Published(backends))[i]]
  {
    if backends[i] != null {
      backends[i].CycleBegin();
    }
  }

  method EndOne(backends: seq<OutputSide?>, i: nat)
    requires Valid(backends) && i < |backends|
    modifies Objects(backends)
    ensures Valid(backends)
    ensures Published(backends) == old(Published(backends))[i := old(Staging(backends))[i]]
    ensures Staging(backends) == old(Staging(backends))[i := old(Published(backends))[i]]
  {
    if backends[i] != null {
      backends[i].CycleEnd();
    }
  }

  lemma NextTaken<T>(from: seq<T>, to: seq<T>, i: nat)
    requires |from| == |to| && i < |from|
    ensures (to[..i] + from[i..])[i := to[i]] == to[..i + 1] + from[i + 1..]
  {
  }

  /** runtime_backends_cycle_begin */
  method BackendsCycleBegin(backends: seq<OutputSide?>)
    requires Valid(backends)
    modifies Objects(backends), Buffers(backends)
    ensures Valid(backends)
    ensures Published(backends) == old(Published(backends)) && Staging(backends) == old(Published(backends))
  {
    hide Valid, Published, Staging;
    ghost var published, staging := Published(backends), Staging(backends);
    var i := 0;
    while i < |backends|
      invariant 0 <= i <= |backends| && Valid(backends)
      invariant Published(backends) == published
      invariant Staging(backends) == published[..i] + staging[i..]
    {
      NextTaken(staging, published, i);
      BeginOne(backends, i);
      i := i + 1;
    }
  }

  /** runtime_backends_sync_outputs */
  method BackendsSyncOutputs(backends: seq<OutputSide?>)
    requires Valid(backends)
    modifies Objects(backends)
    ensures Valid(backends)
    ensures Published(backends) == old(Staging(backends)) && Staging(backends) == old(Published(backends))
  {
    hide Valid, Published, Staging;
    ghost var published, staging := Published(backends), Staging(backends);
    var i := 0;
    while i < |backends|
      invariant 0 <= i <= |backends| && Valid(backends)
      invariant Published(backends) == staging[..i] + published[i..]
      invariant Staging(backends) == published[..i] + staging[i..]
    {
      NextTaken(staging, published, i);
      NextTaken(published, staging, i);
      EndOne(backends, i);
      i := i + 1;
    }
  }

  /** The writes that go to backend `b`, in order. */
  ghost function WritesTo(staged: seq<Staged>, b: nat): seq<Write> {
    if staged == [] then []
    else
      var last := staged[|staged| - 1];
      WritesTo(staged[..|staged| - 1], b) + if last.backend == b then [last.write] else []
  }

  ghost function ApplyEach(images: seq<Image>, staged: seq<Staged>): (r: seq<Image>)
    ensures |r| == |images|
  {
    seq(|images|, b requires 0 <= b < |images| => Apply(images[b], WritesTo(staged, b)))
  }

  /** tag_write into output images, one byte after the other. */
  method StageAll(backends: seq<OutputSide?>, staged: seq<Staged>)
    requires Valid(backends)
    requires forall k :: 0 <= k < |staged| ==> staged[k].backend < |backends| && backends[staged[k].backend] != null
    modifies Objects(backends), Buffers(backends)
    ensures Valid(backends)
    ensures Published(backends) == old(Published(backends))
    ensures Staging(backends) == ApplyEach(old(Staging(backends)), staged)
  {
    ghost var published, staging := Published(backends), Staging(backends);
    NothingStaged(staging);
    var k := 0;
    assert staged[..0] == [];
    while k < |staged|
      invariant 0 <= k <= |staged| && Valid(backends)
      invariant Published(backends) == published
      invariant Staging(backends) == ApplyEach(staging, staged[..k])
    {
      StageOne(backends, staged[k]);
      OneMore(staging, staged, k);
      k := k + 1;
    }
    assert staged[..k] == staged;
  }

  method StageOne(backends: seq<OutputSide?>, s: Staged)
    requires Valid(backends) && s.backend < |backends| && backends[s.backend] != null
    modifies Objects(backends), Buffers(backends)
    ensures Valid(backends)
    ensures Published(backends) == old(Published(backends))
    ensures Staging(backends)
         == old(Staging(backends))[s.backend := Apply(old(Staging(backends))[s.backend], [s.write])]
  {
    hide Apply;
    backends[s.backend].Stage(s.write);
  }

  lemma NothingStaged(images: seq<Image>)
    ensures ApplyEach(images, []) == images
  {
  }

  lemma OneMore(images: seq<Image>, staged: seq<Staged>, k: nat)
    requires k < |staged| && staged[k].backend < |images|
    ensures var before := ApplyEach(images, staged[..k]);
      ApplyEach(images, staged[..k + 1])
      == before[staged[k].backend := Apply(before[staged[k].backend], [staged[k].write])]
  {
    var b := staged[k].backend;
    ApplyConcat(images[b], WritesTo(staged[..k], b), [staged[k].write]);
    hide Apply;
    forall c | 0 <= c < |images|
      ensures WritesTo(staged[..k + 1], c) == WritesTo(staged[..k], c) + if c == b then [staged[k].write] else []
    {
      assert staged[..k + 1][..k] == staged[..k];
    }
    hide WritesTo;
    var before, after := ApplyEach(images, staged[..k]), ApplyEach(images, staged[..k + 1]);
    forall c | 0 <= c < |images| && c != b ensures after[c] == before[c] {
      assert WritesTo(staged[..k + 1], c) == WritesTo(staged[..k], c);
    }
  }

  /**
   A whole PLC cycle: what reaches the published images is exactly what the tasks staged between cycle_begin and
   cycle_end; whatever the RPC poll staged before cycle_begin is discarded.
   */
  method Cycle(backends: seq<OutputSide?>, rpc: seq<Staged>, tasks: seq<Staged>)
    requires Valid(backends)
    requires forall k :: 0 <= k < |rpc| ==> rpc[k].backend < |backends| && backends[rpc[k].backend] != null
    requires forall k :: 0 <= k < |tasks| ==> tasks[k].backend < |backends| && backends[tasks[k].backend] != null
    modifies Objects(backends), Buffers(backends)
    ensures Valid(backends)
    ensures Published(backends) == ApplyEach(old(Published(backends)), tasks)
  {
    hide Published, Staging, ApplyEach;
    StageAll(backends, rpc);
    BackendsCycleBegin(backends);
    StageAll(backends, tasks);
    BackendsSyncOutputs(backends);
  }
}
