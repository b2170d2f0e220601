/** The bounded, dropping queue between the frame worker and the presenter thread, and the pools the
    presented images come from. Each method is one section under the presenter's mutex, or one step of
    the frame worker. */
module Presenter {
  import opened Basics

  const MAX_INTERPOLATED_FRAMES := 3
  const POOLS := MAX_INTERPOLATED_FRAMES + 1

  datatype Image = Image(id: nat, width: nat, height: nat)

  datatype Job = Job(image: Image, slot: nat, logicalFrame: nat)

  datatype Fate = Popped | Dropped

  datatype Settled = Settled(job: Job, fate: Fate)

  ghost function JobsOf(settled: seq<Settled>): seq<Job> {
    seq(|settled|, i requires 0 <= i < |settled| => settled[i].job)
  }

  ghost function AllDropped(jobs: seq<Job>): seq<Settled> {
    seq(|jobs|, i requires 0 <= i < |jobs| => Settled(jobs[i], Dropped))
  }

  function Max(a: nat, b: nat): nat {
    if a < b then b else a
  }

  /** Room for two full groups, or for three of the group being handed over. */
  function MaximumQueuedJobs(group: nat): nat {
    Max(2 * POOLS, 3 * group)
  }

  ghost predicate DistinctImages(jobs: seq<Job>) {
    forall i, j | 0 <= i < j < |jobs| :: jobs[i].image.id != jobs[j].image.id
  }

  /** Which pool an image was made for; every id names one image. */
  type Registry = map<nat, (nat, Image)>

  ghost predicate PoolsValid(pools: seq<seq<Image>>, nextId: nat, made: Registry) {
    |pools| == POOLS &&
    (forall id | id in made :: id < nextId) &&
    (forall k, image: Image | 0 <= k < POOLS && image in pools[k] ::
       image.id in made && made[image.id] == (k, image))
  }

  /** No two live jobs share an image, and every image is in the pool it came from. */
  ghost predicate LiveValid(live: seq<Job>, pools: seq<seq<Image>>)
    requires |pools| == POOLS
  {
    DistinctImages(live) && forall job | job in live :: job.slot < POOLS && job.image in pools[job.slot]
  }

  /** Dropping images no job holds keeps the pools in order. */
  lemma AcquisitionIsSafe(pools: seq<seq<Image>>, nextId: nat, made: Registry, live: seq<Job>, slot: nat,
                          kept: seq<Image>)
    requires PoolsValid(pools, nextId, made) && LiveValid(live, pools) && slot < POOLS
    requires forall image | image in kept :: image in pools[slot]
    requires forall image | image in pools[slot] && Held(live, image) :: image in kept
    ensures PoolsValid(pools[slot := kept], nextId, made) && LiveValid(live, pools[slot := kept])
  {
    forall job | job in live && job.slot == slot ensures job.image in kept {
      assert Held(live, job.image);
    }
  }

  lemma GrowPool(pools: seq<seq<Image>>, nextId: nat, made: Registry, live: seq<Job>, slot: nat,
                 kept: seq<Image>, image: Image)
    requires slot < POOLS == |pools| && image.id == nextId
    requires PoolsValid(pools[slot := kept], nextId, made) && LiveValid(live, pools[slot := kept])
    ensures PoolsValid(pools[slot := kept + [image]], nextId + 1, made[nextId := (slot, image)])
    ensures LiveValid(live, pools[slot := kept + [image]])
    ensures forall i | 0 <= i < |live| :: live[i].image.id != image.id
  {
    var before, grown := pools[slot := kept], pools[slot := kept + [image]];
    forall i | 0 <= i < |live| ensures live[i].image.id != image.id {
      assert live[i] in live && live[i].image in before[live[i].slot];
    }
    forall k, other: Image | 0 <= k < POOLS && other in grown[k]
      ensures other.id in made[nextId := (slot, image)] && made[nextId := (slot, image)][other.id] == (k, other)
    {
      assert other in before[k] || (k == slot && other == image);
    }
  }

  /** An image no live job holds has an id no live job's image has. */
  lemma UnheldIsDistinct(live: seq<Job>, pools: seq<seq<Image>>, nextId: nat, made: Registry, slot: nat,
                         image: Image)
    requires PoolsValid(pools, nextId, made) && LiveValid(live, pools) && slot < POOLS
    requires image in pools[slot] && !Held(live, image)
    ensures forall i | 0 <= i < |live| :: live[i].image.id != image.id
  {
    forall i | 0 <= i < |live| ensures live[i].image.id != image.id {
      assert live[i] in live && live[i].image in pools[live[i].slot];
      assert live[i].image != image;
    }
  }

  /** What a use count above one says: some job still holds the image. */
  predicate Held(live: seq<Job>, image: Image) {
    exists i | 0 <= i < |live| :: live[i].image == image
  }

  /** Walks a pool for an idle image of the wanted size, dropping the idle images of other sizes it
      passes. Whatever a job holds stays in the pool. */
  method ScanPool(pool: seq<Image>, live: seq<Job>, width: nat, height: nat)
    returns (kept: seq<Image>, found: Option<Image>)
    ensures forall image | image in kept :: image in pool
    ensures forall image | image in pool && Held(live, image) :: image in kept
    ensures found.Some? ==> found.value in kept && !Held(live, found.value)
    ensures found.Some? ==> found.value.width == width && found.value.height == height
    ensures found.None? ==> forall image | image in kept :: Held(live, image)
    ensures found.None? ==>
      forall image | image in pool && image.width == width && image.height == height :: Held(live, image)
  {
    kept, found := pool, None;
    var i := 0;
    while i < |kept|
      invariant 0 <= i <= |kept|
      invariant forall image | image in kept :: image in pool
      invariant forall image | image in pool && image !in kept ::
        !Held(live, image) && (image.width != width || image.height != height)
      invariant forall a | 0 <= a < i :: Held(live, kept[a])
      decreases |kept| - i
    {
      var candidate := kept[i];
      if candidate.width == width && candidate.height == height {
        if !Held(live, candidate) {
          found := Some(candidate);
          return;
        }
        i := i + 1;
      } else if !Held(live, candidate) {
        assert kept == kept[..i] + [candidate] + kept[i + 1..];
        kept := kept[..i] + kept[i + 1..];
      } else {
        i := i + 1;
      }
    }
  }

  /** The image to encode a slot into, what is left of the slot's pool, and the next unused id. */
  method AcquireFrom(pools: seq<seq<Image>>, nextId: nat, ghost made: Registry, live: seq<Job>, slot: nat,
                     width: nat, height: nat)
    returns (image: Image, kept: seq<Image>, next: nat, ghost madeNext: Registry)
    requires slot < POOLS && PoolsValid(pools, nextId, made) && LiveValid(live, pools)
    ensures PoolsValid(pools[slot := kept], next, madeNext) && LiveValid(live, pools[slot := kept])
    ensures image.width == width && image.height == height && image in kept
    ensures forall i | 0 <= i < |live| :: live[i].image.id != image.id
    ensures if image in pools[slot] then next == nextId
            else image.id == nextId && forall other | other in kept :: other == image || Held(live, other)
  {
    var found;
    kept, found := ScanPool(pools[slot], live, width, height);
    AcquisitionIsSafe(pools, nextId, made, live, slot, kept);
    if found.Some? {
      image, next, madeNext := found.value, nextId, made;
      UnheldIsDistinct(live, pools, nextId, made, slot, image);
    } else {
      image, next := Image(nextId, width, height), nextId + 1;
      assert image !in pools[slot];
      GrowPool(pools, nextId, made, live, slot, kept, image);
      kept, madeNext := kept + [image], made[nextId := (slot, image)];
    }
  }

  class PresenterState {
    var jobs: seq<Job>
    var stop: bool
    var presenting: Option<Job>
    var building: seq<Job>
    var pools: seq<seq<Image>>
    var nextId: nat
    // history: every job accepted, and what became of those no longer queued
    ghost var accepted: seq<Job>
    ghost var settled: seq<Settled>
    ghost var largestGroup: nat
    ghost var made: Registry

    constructor ()
      ensures Valid() && jobs == building == [] && presenting == None && !stop && accepted == []
    {
      jobs, building, presenting, stop := [], [], None, false;
      pools, nextId := seq(POOLS, _ => []), 0;
      accepted, settled, largestGroup, made := [], [], 0, map[];
    }

    function InFlight(): seq<Job>
      reads this
    {
      if presenting.None? then [] else [presenting.value]
    }

    /** The jobs that hold an image. */
    function Live(): seq<Job>
      reads this
    {
      InFlight() + jobs + building
    }

    /** Nothing is lost or reordered, and no two live jobs share an image. */
    ghost predicate Valid()
      reads this
    {
      PoolsValid(pools, nextId, made) &&
      accepted == JobsOf(settled) + jobs &&
      (presenting.Some? ==> Settled(presenting.value, Popped) in settled) &&
      |jobs| <= MaximumQueuedJobs(largestGroup) &&
      LiveValid(Live(), pools)
    }

    /** An image of the wanted size that no job holds: an idle one of the slot's pool, or a new one if
        there is none, by which time no idle image of another size is left in that pool. */
    method AcquirePresentationImage(slot: nat, width: nat, height: nat) returns (image: Image)
      requires Valid() && slot < POOLS
      modifies this`pools, this`nextId, this`made
      ensures Valid() && pools == old(pools)[slot := pools[slot]]
      ensures image.width == width && image.height == height && image in pools[slot]
      ensures forall i | 0 <= i < |Live()| :: Live()[i].image.id != image.id
      ensures image in old(pools)[slot] || image.id == old(nextId)
      ensures image !in old(pools)[slot] ==>
        forall other | other in pools[slot] :: other == image || Held(Live(), other)
    {
      var kept, next;
      image, kept, next, made := AcquireFrom(pools, nextId, made, Live(), slot, width, height);
      pools, nextId := pools[slot := kept], next;
    }

    /** The frame worker encodes one slot of the group it is building. */
    method EncodeSlot(slot: nat, width: nat, height: nat, logicalFrame: nat)
      requires Valid() && slot < POOLS
      modifies this`pools, this`nextId, this`made, this`building
      ensures Valid() && |building| == |old(building)| + 1 && building[..|old(building)|] == old(building)
      ensures var job := building[|old(building)|];
        job.image.width == width && job.image.height == height && job.slot == slot &&
        job.logicalFrame == logicalFrame
    {
      var image := AcquirePresentationImage(slot, width, height);
      ghost var live := Live();
      building := building + [Job(image, slot, logicalFrame)];
      assert Live() == live + [Job(image, slot, logicalFrame)];
    }

    /** Hands the group over. A queue without room for it is emptied first: only jobs older than the
        group go, the group itself is kept whole and in order, last. Once stopped, nothing is taken. */
    method EnqueuePresentations() returns (taken: bool)
      requires Valid()
      modifies this`jobs, this`building, this`accepted, this`settled, this`largestGroup
      ensures Valid() && building == [] && taken == !stop
      ensures !taken ==> jobs == old(jobs) && accepted == old(accepted) && settled == old(settled)
      ensures taken ==> accepted == old(accepted) + old(building)
      ensures taken && (|old(jobs)| + |old(building)| <= 8 || |old(jobs)| <= 2 * |old(building)|) ==>
        jobs == old(jobs) + old(building) && settled == old(settled)
      ensures taken && |old(jobs)| + |old(building)| > 8 && |old(jobs)| > 2 * |old(building)| ==>
        jobs == old(building) && settled == old(settled) + AllDropped(old(jobs))
      ensures taken ==> |jobs| <= 8 || |jobs| <= 3 * |old(building)|
    {
      var group := building;
      LiveAfterEnqueue(InFlight(), jobs, group, pools);
      building := [];
      if stop {
        assert Live() == InFlight() + jobs;
        return false;
      }
      if |jobs| + |group| > MaximumQueuedJobs(|group|) {
        SettleAll(settled, jobs);
        settled := settled + AllDropped(jobs);
        jobs := [];
      }
      jobs := jobs + group;
      assert Live() == InFlight() + jobs;
      accepted := accepted + group;
      largestGroup := Max(largestGroup, |group|);
      return true;
    }

    /** The presenter takes the oldest job; it stops once it has been told to and the queue is empty. */
    method PopJob()
      requires Valid() && presenting == None && jobs != []
      modifies this`jobs, this`presenting, this`settled
      ensures Valid()
      ensures presenting == Some(old(jobs)[0]) && jobs == old(jobs)[1..]
      ensures settled == old(settled) + [Settled(old(jobs)[0], Popped)] && accepted == old(accepted)
    {
      ghost var live := Live();
      SettleOne(settled, jobs[0], Popped);
      presenting, settled, jobs := Some(jobs[0]), settled + [Settled(jobs[0], Popped)], jobs[1..];
      assert Live() == live;
    }

    method FinishJob()
      requires Valid() && presenting.Some?
      modifies this`presenting
      ensures Valid() && presenting == None
    {
      ghost var live := Live();
      presenting := None;
      assert Live() == live[1..];
    }

    method RequestStop()
      requires Valid()
      modifies this`stop
      ensures Valid() && stop
    {
      stop := true;
    }
  }

  /** Leaving out the middle of a list of jobs keeps the images distinct and adds no job. */
  lemma DropMiddle(a: seq<Job>, b: seq<Job>, c: seq<Job>)
    requires DistinctImages(a + b + c)
    ensures DistinctImages(a + c)
    ensures forall job | job in a + c :: job in a + b + c
  {
    forall i, j | 0 <= i < j < |a + c| ensures (a + c)[i].image.id != (a + c)[j].image.id {
      var k, l := if i < |a| then i else i + |b|, if j < |a| then j else j + |b|;
      assert (a + c)[i] == (a + b + c)[k] && (a + c)[j] == (a + b + c)[l];
    }
  }

  lemma LiveAfterEnqueue(inFlight: seq<Job>, jobs: seq<Job>, group: seq<Job>, pools: seq<seq<Image>>)
    requires |pools| == POOLS && LiveValid(inFlight + jobs + group, pools)
    ensures LiveValid(inFlight + jobs, pools)
    ensures LiveValid(inFlight + (jobs + group), pools)
    ensures LiveValid(inFlight + ([] + group), pools)
  {
    assert inFlight + jobs + group + [] == inFlight + jobs + group && inFlight + jobs + [] == inFlight + jobs;
    DropMiddle(inFlight + jobs, group, []);
    assert inFlight + (jobs + group) == inFlight + jobs + group && [] + group == group;
    DropMiddle(inFlight, jobs, group);
  }

  lemma SettleAll(settled: seq<Settled>, jobs: seq<Job>)
    ensures JobsOf(settled + AllDropped(jobs)) == JobsOf(settled) + jobs
  {
  }

  lemma SettleOne(settled: seq<Settled>, job: Job, fate: Fate)
    ensures JobsOf(settled + [Settled(job, fate)]) == JobsOf(settled) + [job]
  {
  }

  datatype Operation = Encode(slot: nat, width: nat, height: nat) | Enqueue | Pop | Finish | Stop

  datatype View = View(jobs: seq<Job>, building: seq<Job>, presenting: Option<Job>, stop: bool,
                       accepted: seq<Job>, settled: seq<Settled>)

  ghost function ViewOf(p: PresenterState): View
    reads p
  {
    View(p.jobs, p.building, p.presenting, p.stop, p.accepted, p.settled)
  }

  /** `now` is `was` with one job more in the group that is being built. */
  ghost predicate OneJobMore(was: View, now: View, slot: nat, width: nat, height: nat, logicalFrame: nat) {
    |now.building| == |was.building| + 1 && now == was.(building := was.building + [now.building[|was.building|]]) &&
    var job := now.building[|was.building|];
    job.slot == slot && job.image.width == width && job.image.height == height && job.logicalFrame == logicalFrame
  }

  /** What an operation makes of the jobs; one that is not possible makes nothing of them. */
  ghost predicate Makes(operation: Operation, was: View, now: View, logicalFrame: nat) {
    match operation
    case Encode(slot, width, height) =>
      if slot < POOLS then OneJobMore(was, now, slot, width, height, logicalFrame) else now == was
    case Enqueue =>
      if was.stop then now == was.(building := [])
      else if |was.jobs| + |was.building| <= 8 || |was.jobs| <= 2 * |was.building| then
        now == was.(jobs := was.jobs + was.building, building := [], accepted := was.accepted + was.building)
      else
        now == was.(jobs := was.building, building := [], accepted := was.accepted + was.building,
                    settled := was.settled + AllDropped(was.jobs))
    case Pop =>
      if was.presenting.Some? || was.jobs == [] then now == was
      else now == was.(jobs := was.jobs[1..], presenting := Some(was.jobs[0]),
                       settled := was.settled + [Settled(was.jobs[0], Popped)])
    case Finish => now == was.(presenting := None)
    case Stop => now == was.(stop := true)
  }

  method Take(p: PresenterState, operation: Operation, logicalFrame: nat)
    requires p.Valid()
    modifies p
    ensures p.Valid() && Makes(operation, old(ViewOf(p)), ViewOf(p), logicalFrame)
  {
    match operation {
      case Encode(slot, width, height) =>
        if slot < POOLS { p.EncodeSlot(slot, width, height, logicalFrame); }
      case Enqueue =>
        var taken := p.EnqueuePresentations();
      case Pop =>
        if p.presenting.None? && p.jobs != [] { p.PopJob(); }
      case Finish =>
        if p.presenting.Some? { p.FinishJob(); }
      case Stop =>
        p.RequestStop();
    }
  }

  /** Each view of a run follows from the one before by the operation between them. */
  ghost predicate Follows(operations: seq<Operation>, views: seq<View>) {
    |views| <= |operations| + 1 &&
    forall k | 0 < k < |views| :: Makes(operations[k - 1], views[k - 1], views[k], k)
  }

  /** Any interleaving of the two threads: nothing is lost, duplicated or reordered, the queue keeps its
      bound, and no image is ever in two live jobs. */
  method RunPresenter(p: PresenterState, operations: seq<Operation>) returns (ghost views: seq<View>)
    requires p.Valid()
    modifies p
    ensures p.Valid()
    ensures p.accepted == JobsOf(p.settled) + p.jobs && old(p.accepted) <= p.accepted
    ensures old(p.settled) <= p.settled
    ensures |views| == |operations| + 1 && Follows(operations, views)
    ensures views[0] == old(ViewOf(p)) && views[|operations|] == ViewOf(p)
  {
    views := [ViewOf(p)];
    for i := 0 to |operations|
      invariant p.Valid() && old(p.accepted) <= p.accepted && old(p.settled) <= p.settled
      invariant |views| == i + 1 && Follows(operations, views)
      invariant views[0] == old(ViewOf(p)) && views[i] == ViewOf(p)
    {
      Take(p, operations[i], i + 1);
      views := views + [ViewOf(p)];
    }
  }
}
