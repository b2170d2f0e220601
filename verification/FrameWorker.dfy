/** The frame worker and the producer that feeds it, as an interleaving of atomic steps: one step is a
    section under the worker's mutex, a step under the renderer mutex, or one encoded slot. */
module FrameWorker {

  /** Where the worker thread stands. `Want...` waits for the renderer mutex. */
  datatype WorkerPc =
    | Idle
    | WantSeal
    | Sealing
    | EncodingLocked
    | AwaitingPermit
    | Preparing
    | WantPrepare
    | PreparingLocked
    | PublishingSealed
    | EncodingFree
    | WantImGui
    | PublishingReady
    | Exiting
    | Gone

  /** Where the producer thread stands: between frames, beginning one, inside one, ending one. */
  datatype ProducerPc =
    | Between
    | OutsideJoining
    | BeginJoining
    | Beginning
    | BeginningLocked
    | InFrame
    | DrainJoining
    | WantDrain
    | Draining
    | FrameJoining
    | EndJoining
    | WantEndDrain
    | EndDraining
    | Posting
    | StopJoining
    | Stopped

  datatype Owner = Nobody | ByWorker | ByProducer

  /** One encoded slot: of which frame, and which ImGui frame was current. */
  datatype Slot = Slot(frame: nat, imgui: nat)

  datatype State = State(
    stop: bool, jobPending: bool, sealed: bool, ready: bool, framePrepared: bool, prepareAllowed: bool,
    renderer: Owner, worker: WorkerPc, producer: ProducerPc,
    // the worker's locals
    overlap: bool, prepared: bool, imguiOwed: bool, slotsLeft: nat,
    // history: frames handed over, frames sealed with the ImGui frame each was sealed on, slots
    // encoded, ImGui frames started, the frame whose `begin` last granted permission
    posted: nat, seals: seq<Slot>, encoded: seq<Slot>, imgui: nat, permitFor: nat)

  const INITIAL: State :=
    State(false, false, true, true, false, false, Nobody, Idle, Between, false, false, false, 0,
          0, [], [], 0, 0)

  /** What the surroundings decide: whether interpolation inserts slots, whether the surface or the
      renderer lets a frame begin. */
  datatype Chance = Chance(extraSlots: nat, surfaceUsable: bool, rendererBegins: bool)

  datatype Call = BeginFrame(surfaceChanging: bool) | Drain | WaitForWorker | EndFrame | Shutdown | Continue

  datatype Outcome = Blocked | To(state: State)

  // ------------------------------------------------------------------------------- what always holds

  /** From taking a job to publishing SEALED. */
  predicate SealPhase(w: WorkerPc) {
    w.WantSeal? || w.Sealing? || w.EncodingLocked? || w.AwaitingPermit? || w.Preparing? ||
    w.WantPrepare? || w.PreparingLocked? || w.PublishingSealed?
  }

  /** The encode that overlaps the producer's next frame. */
  predicate FreePhase(w: WorkerPc) {
    w.EncodingFree? || w.WantImGui? || w.PublishingReady?
  }

  /** The cycle still has its permission to prepare ahead of it. */
  predicate BeforePermit(s: State) {
    s.jobPending || s.worker.WantSeal? || s.worker.Sealing? || s.worker.EncodingLocked? ||
    s.worker.AwaitingPermit?
  }

  predicate NotYetSealed(s: State) {
    s.jobPending || s.worker.WantSeal? || s.worker.Sealing?
  }

  predicate WorkerFlags(s: State) {
    (s.ready ==> s.sealed) &&
    (SealPhase(s.worker) ==> !s.sealed && !s.jobPending) &&
    (FreePhase(s.worker) ==> s.sealed && !s.ready && s.overlap && !s.jobPending) &&
    (s.jobPending ==> s.worker.Idle? || s.worker.Exiting? || s.worker.Gone?) &&
    (s.jobPending && !s.worker.Gone? ==> !s.sealed) &&
    (s.worker.Idle? && !s.jobPending ==> s.ready) &&
    (s.worker.Gone? ==> s.ready) &&
    (s.worker.Exiting? || s.worker.Gone? ==> s.stop) &&
    (s.worker.EncodingLocked? ==> !s.overlap) &&
    (s.slotsLeft != 0 ==> s.overlap || s.worker.EncodingLocked?) &&
    (s.slotsLeft != 0 ==> !s.worker.Idle? && !s.worker.WantSeal? && !s.worker.Sealing? &&
                          !s.worker.WantImGui? && !s.worker.PublishingReady?) &&
    (s.worker.WantImGui? ==> s.imguiOwed) && (s.worker.PublishingSealed? && s.imguiOwed ==> s.overlap) &&
    (s.imguiOwed ==> !s.worker.EncodingLocked? && !s.worker.AwaitingPermit? && !s.worker.Preparing? &&
                     !s.worker.WantPrepare? && !s.worker.PreparingLocked?)
  }

  predicate MutexHeld(s: State) {
    (s.renderer.ByWorker? <==>
      s.worker.Sealing? || s.worker.EncodingLocked? || s.worker.PreparingLocked?) &&
    (s.renderer.ByProducer? <==>
      s.producer.BeginningLocked? || s.producer.Draining? || s.producer.EndDraining?)
  }

  predicate ProducerFlags(s: State) {
    (s.producer.WantDrain? || s.producer.Draining? ==> s.sealed) &&
    (ReadyHeld(s.producer) ==> s.ready) &&
    (s.stop <==> s.producer.StopJoining? || s.producer.Stopped?)
  }

  /** Where the producer has seen READY and only it could take it away. */
  predicate ReadyHeld(p: ProducerPc) {
    p.Beginning? || p.BeginningLocked? || p.WantEndDrain? || p.EndDraining? || p.Posting?
  }

  predicate Permits(s: State) {
    (s.prepareAllowed && !s.stop ==> s.permitFor == s.posted && BeforePermit(s)) &&
    (OutsideFrame(s.producer) && !s.ready ==> BeforePermit(s) && !s.prepareAllowed) &&
    (!OutsideFrame(s.producer) && BeforePermit(s) && !s.ready ==> s.prepareAllowed)
  }

  predicate OutsideFrame(p: ProducerPc) {
    p.Between? || p.OutsideJoining?
  }

  predicate SealHistory(s: State) {
    (forall i | 0 <= i < |s.seals| :: s.seals[i].frame == i + 1) &&
    s.posted == |s.seals| + (if NotYetSealed(s) then 1 else 0)
  }

  /** Every slot was encoded while the ImGui frame it was sealed on was still the current one. */
  predicate SlotsFresh(s: State) {
    (s.worker.EncodingLocked? || s.worker.AwaitingPermit? || s.worker.Preparing? || s.worker.WantPrepare? ||
     s.worker.PreparingLocked? ||
     (s.overlap && (s.worker.PublishingSealed? || s.worker.EncodingFree? || s.worker.WantImGui?)) ==>
       s.seals != [] && s.seals[|s.seals| - 1].imgui == s.imgui) &&
    (forall i | 0 <= i < |s.encoded| ::
       1 <= s.encoded[i].frame <= |s.seals| && s.encoded[i] == s.seals[s.encoded[i].frame - 1]) &&
    (forall i, j | 0 <= i < j < |s.encoded| :: s.encoded[i].frame <= s.encoded[j].frame)
  }

  predicate Inv(s: State) {
    WorkerFlags(s) && MutexHeld(s) && ProducerFlags(s) && Permits(s) && SealHistory(s) && SlotsFresh(s)
  }

  // -------------------------------------------------------------------- the worker's atomic sections

  /** How far the worker's cycle is from publishing READY, or from being gone after a stop. */
  function Rank(s: State): nat {
    match s.worker
    case Idle => if s.stop then 2 else if s.jobPending then 14 else 0
    case WantSeal => 13
    case Sealing => 12
    case EncodingLocked => 11
    case AwaitingPermit => 10
    case Preparing => 9
    case WantPrepare => 8
    case PreparingLocked => 7
    case PublishingSealed => 6
    case EncodingFree => 5
    case WantImGui => 4
    case PublishingReady => 3
    case Exiting => 1
    case Gone => 0
  }

  /** What every section of the worker does: it keeps the invariant, leaves the producer alone and
      brings the worker nearer its rest. */
  predicate WorkerSection(s: State, t: State) {
    (Inv(s) ==> Inv(t)) && t.producer == s.producer && t.stop == s.stop && t.posted == s.posted &&
    (WorkerFlags(s) ==> Rank(t) < Rank(s) || (Rank(t) == Rank(s) && t.slotsLeft < s.slotsLeft)) &&
    (!s.worker.Sealing? && !Encoding(s) ==> SameSlots(s, t)) &&
    (WorkerFlags(s) && !s.worker.PreparingLocked? ==> ImGuiDue(t) == ImGuiDue(s)) &&
    (!s.worker.Preparing? && !s.worker.PreparingLocked? && !s.worker.PublishingSealed? ==> SameAnswer(s, t))
  }

  predicate Encoding(s: State) {
    s.slotsLeft != 0 && (s.worker.EncodingLocked? || s.worker.EncodingFree?)
  }

  predicate SameSlots(s: State, t: State) {
    t.seals == s.seals && t.encoded == s.encoded && t.slotsLeft == s.slotsLeft && t.overlap == s.overlap
  }

  /** The ImGui frames started and the one an overlapped cycle still owes. */
  function ImGuiDue(s: State): nat {
    s.imgui + if s.imguiOwed && (s.worker.PublishingSealed? || s.worker.EncodingFree? || s.worker.WantImGui?)
              then 1 else 0
  }

  /** Nothing of the next frame has been prepared yet. */
  predicate Unprepared(s: State) {
    BeforePermit(s) || (s.worker.Exiting? && !s.sealed)
  }

  /** What `begin_frame` would be answered has not changed. */
  predicate SameAnswer(s: State, t: State) {
    t.framePrepared == s.framePrepared && (s.sealed ==> t.sealed) && !t.worker.PublishingSealed? &&
    (!t.sealed ==> !s.sealed) && (t.sealed && !s.sealed ==> Unprepared(s) || !WorkerFlags(s)) &&
    (Unprepared(t) ==> Unprepared(s) || !WorkerFlags(s))
  }

  function TakeJob(s: State): (t: State)
    requires s.worker.Idle? && s.jobPending && !s.stop
    ensures WorkerSection(s, t)
  {
    s.(jobPending := false, worker := WantSeal)
  }

  function LockForSeal(s: State): (t: State)
    requires s.worker.WantSeal? && s.renderer.Nobody?
    ensures WorkerSection(s, t)
  {
    s.(renderer := ByWorker, worker := Sealing)
  }

  /** Seals the recorded frame. Only an interpolated frame leaves the renderer mutex to be encoded. */
  function Seal(s: State, c: Chance): (t: State)
    requires s.worker.Sealing?
    ensures WorkerSection(s, t)
  {
    var overlap := c.extraSlots != 0;
    s.(seals := s.seals + [Slot(s.posted, s.imgui)], overlap := overlap, slotsLeft := c.extraSlots + 1,
       imguiOwed := false, renderer := if overlap then Nobody else ByWorker,
       worker := if overlap then AwaitingPermit else EncodingLocked)
  }

  function EncodeSlot(s: State): (t: State)
    requires Encoding(s)
    ensures WorkerSection(s, t)
  {
    s.(encoded := s.encoded + [Slot(s.posted, s.imgui)], slotsLeft := s.slotsLeft - 1)
  }

  function FinishLockedEncode(s: State): (t: State)
    requires s.worker.EncodingLocked? && s.slotsLeft == 0
    ensures WorkerSection(s, t)
  {
    s.(renderer := Nobody, worker := AwaitingPermit)
  }

  function ConsumePermit(s: State): (t: State)
    requires s.worker.AwaitingPermit? && s.prepareAllowed && !s.stop
    ensures WorkerSection(s, t)
  {
    s.(prepareAllowed := false, worker := Preparing)
  }

  function Leave(s: State): (t: State)
    requires s.stop && (s.worker.Idle? || s.worker.AwaitingPermit?)
    ensures WorkerSection(s, t)
  {
    s.(worker := Exiting)
  }

  function CheckSurface(s: State, c: Chance): (t: State)
    requires s.worker.Preparing?
    ensures WorkerSection(s, t)
  {
    if c.surfaceUsable then s.(worker := WantPrepare)
    else s.(prepared := false, worker := PublishingSealed)
  }

  function LockForPrepare(s: State): (t: State)
    requires s.worker.WantPrepare? && s.renderer.Nobody?
    ensures WorkerSection(s, t)
  {
    s.(renderer := ByWorker, worker := PreparingLocked)
  }

  /** Starts ImGui's next frame now, or notes that it is owed once the overlapped encode is done. */
  function PrepareFrame(s: State, c: Chance): (t: State)
    requires s.worker.PreparingLocked?
    ensures WorkerSection(s, t)
  {
    s.(imguiOwed := s.overlap, imgui := if s.overlap then s.imgui else s.imgui + 1,
       prepared := c.rendererBegins, renderer := Nobody, worker := PublishingSealed)
  }

  function PublishSealed(s: State): (t: State)
    requires s.worker.PublishingSealed?
    ensures WorkerSection(s, t)
  {
    s.(framePrepared := s.prepared, sealed := true, ready := s.ready || !s.overlap,
       worker := if s.overlap then EncodingFree else Idle)
  }

  function FinishFreeEncode(s: State): (t: State)
    requires s.worker.EncodingFree? && s.slotsLeft == 0
    ensures WorkerSection(s, t)
  {
    s.(worker := if s.imguiOwed then WantImGui else PublishingReady)
  }

  function StartOwedImGuiFrame(s: State): (t: State)
    requires s.worker.WantImGui? && s.renderer.Nobody?
    ensures WorkerSection(s, t)
  {
    s.(imgui := s.imgui + 1, worker := PublishingReady)
  }

  function PublishReady(s: State): (t: State)
    requires s.worker.PublishingReady?
    ensures WorkerSection(s, t)
  {
    s.(ready := true, worker := Idle)
  }

  function ReleaseBothPhases(s: State): (t: State)
    requires s.worker.Exiting?
    ensures WorkerSection(s, t)
  {
    s.(sealed := true, ready := true, worker := Gone)
  }

  /** The worker's next section; Blocked while it has to wait. */
  function WorkerStep(s: State, c: Chance): (o: Outcome)
    ensures o.To? ==> WorkerSection(s, o.state)
  {
    match s.worker
    case Idle => if s.stop then To(Leave(s)) else if s.jobPending then To(TakeJob(s)) else Blocked
    case WantSeal => if s.renderer.Nobody? then To(LockForSeal(s)) else Blocked
    case Sealing => To(Seal(s, c))
    case EncodingLocked => if s.slotsLeft != 0 then To(EncodeSlot(s)) else To(FinishLockedEncode(s))
    case AwaitingPermit =>
      if s.stop then To(Leave(s)) else if s.prepareAllowed then To(ConsumePermit(s)) else Blocked
    case Preparing => To(CheckSurface(s, c))
    case WantPrepare => if s.renderer.Nobody? then To(LockForPrepare(s)) else Blocked
    case PreparingLocked => To(PrepareFrame(s, c))
    case PublishingSealed => To(PublishSealed(s))
    case EncodingFree => if s.slotsLeft != 0 then To(EncodeSlot(s)) else To(FinishFreeEncode(s))
    case WantImGui => if s.renderer.Nobody? then To(StartOwedImGuiFrame(s)) else Blocked
    case PublishingReady => To(PublishReady(s))
    case Exiting => To(ReleaseBothPhases(s))
    case Gone => Blocked
  }

  // ------------------------------------------------------------------ the producer's atomic sections

  /** What every section of the producer does: it keeps the invariant and leaves seals and slots alone. */
  predicate ProducerSection(s: State, t: State) {
    (Inv(s) ==> Inv(t)) && SameSlots(s, t) &&
    (!s.producer.BeginningLocked? ==> ImGuiDue(t) == ImGuiDue(s)) && t.worker == s.worker && t.prepared == s.prepared &&
    (!s.producer.Beginning? && !s.producer.BeginningLocked? && !s.producer.Posting? ==>
       !s.producer.Stopped? && t.sealed == s.sealed && t.jobPending == s.jobPending &&
       t.framePrepared == (s.framePrepared && !t.producer.Stopped?))
  }

  /** `begin_frame` while the worker is not done: allows the pending preparation and takes the frame as
      begun, unless the surface is changing. */
  function AllowPreparation(s: State, surfaceChanging: bool): (t: State)
    requires s.producer.Between? && !s.ready
    ensures ProducerSection(s, t)
  {
    s.(prepareAllowed := true, permitFor := s.posted,
       producer := if surfaceChanging then BeginJoining else InFrame)
  }

  /** `begin_frame` while the worker is done: takes the prepared frame, or begins one inline. */
  function TakePrepared(s: State): (t: State)
    requires s.producer.Between? && s.ready
    ensures ProducerSection(s, t)
  {
    s.(producer := if s.framePrepared then InFrame else Beginning)
  }

  function JoinedBegin(s: State): (t: State)
    requires s.producer.BeginJoining? && s.ready
    ensures ProducerSection(s, t)
  {
    s.(producer := if s.framePrepared then InFrame else Between)
  }

  function InlineBeginFails(s: State): (t: State)
    requires s.producer.Beginning?
    ensures ProducerSection(s, t)
  {
    s.(framePrepared := false, producer := Between)
  }

  function LockForInlineBegin(s: State): (t: State)
    requires s.producer.Beginning? && s.renderer.Nobody?
    ensures ProducerSection(s, t)
  {
    s.(renderer := ByProducer, producer := BeginningLocked)
  }

  function InlineBegin(s: State, c: Chance): (t: State)
    requires s.producer.BeginningLocked?
    ensures ProducerSection(s, t)
  {
    s.(renderer := Nobody, imgui := s.imgui + 1, framePrepared := c.rendererBegins,
       producer := if c.rendererBegins then InFrame else Between)
  }

  /** The producer starts a wait between frames. */
  function StartWaitOutside(s: State): (t: State)
    requires s.producer.Between?
    ensures ProducerSection(s, t)
  {
    s.(producer := OutsideJoining)
  }

  /** The producer starts a wait inside a frame, or at its end. */
  function StartWait(s: State, next: ProducerPc): (t: State)
    requires s.producer.InFrame? && (next.DrainJoining? || next.FrameJoining? || next.EndJoining?)
    ensures ProducerSection(s, t)
  {
    s.(producer := next)
  }

  function JoinedOutside(s: State): (t: State)
    requires s.producer.OutsideJoining? && s.ready
    ensures ProducerSection(s, t)
  {
    s.(producer := Between)
  }

  function JoinedInside(s: State): (t: State)
    requires (s.producer.FrameJoining? || s.producer.EndJoining?) && s.ready
    ensures ProducerSection(s, t)
  {
    s.(producer := if s.producer.FrameJoining? then InFrame else WantEndDrain)
  }

  function JoinedSealed(s: State): (t: State)
    requires s.producer.DrainJoining? && s.sealed
    ensures ProducerSection(s, t)
  {
    s.(producer := WantDrain)
  }

  function LockForDrain(s: State): (t: State)
    requires (s.producer.WantDrain? || s.producer.WantEndDrain?) && s.renderer.Nobody?
    ensures ProducerSection(s, t)
  {
    s.(renderer := ByProducer, producer := if s.producer.WantDrain? then Draining else EndDraining)
  }

  function FinishDrain(s: State): (t: State)
    requires s.producer.Draining? || s.producer.EndDraining?
    ensures ProducerSection(s, t)
  {
    s.(renderer := Nobody, producer := if s.producer.Draining? then InFrame else Posting)
  }

  /** `end_frame` hands the frame over. */
  function PostJob(s: State): (t: State)
    requires s.producer.Posting?
    ensures ProducerSection(s, t)
  {
    s.(framePrepared := false, sealed := false, ready := false, jobPending := true, prepareAllowed := false,
       posted := s.posted + 1, producer := Between)
  }

  function RequestStop(s: State): (t: State)
    requires s.producer.Between? || s.producer.InFrame?
    ensures ProducerSection(s, t)
  {
    s.(stop := true, prepareAllowed := true, producer := StopJoining)
  }

  function JoinedStop(s: State): (t: State)
    requires s.producer.StopJoining? && s.worker.Gone?
    ensures ProducerSection(s, t)
  {
    s.(framePrepared := false, producer := Stopped)
  }

  function ProducerStep(s: State, call: Call, c: Chance): (o: Outcome)
    ensures o.To? ==> ProducerSection(s, o.state)
  {
    match s.producer
    case Between =>
      (match call
       case BeginFrame(surfaceChanging) =>
         if s.ready then To(TakePrepared(s)) else To(AllowPreparation(s, surfaceChanging))
       case WaitForWorker => To(StartWaitOutside(s))
       case Shutdown => To(RequestStop(s))
       case _ => Blocked)
    case OutsideJoining => if s.ready then To(JoinedOutside(s)) else Blocked
    case BeginJoining => if s.ready then To(JoinedBegin(s)) else Blocked
    case Beginning =>
      if !c.surfaceUsable then To(InlineBeginFails(s))
      else if s.renderer.Nobody? then To(LockForInlineBegin(s))
      else Blocked
    case BeginningLocked => To(InlineBegin(s, c))
    case InFrame =>
      (match call
       case Drain => To(StartWait(s, DrainJoining))
       case WaitForWorker => To(StartWait(s, FrameJoining))
       case EndFrame => To(StartWait(s, EndJoining))
       case Shutdown => To(RequestStop(s))
       case _ => Blocked)
    case DrainJoining => if s.sealed then To(JoinedSealed(s)) else Blocked
    case WantDrain => if s.renderer.Nobody? then To(LockForDrain(s)) else Blocked
    case Draining => To(FinishDrain(s))
    case FrameJoining => if s.ready then To(JoinedInside(s)) else Blocked
    case EndJoining => if s.ready then To(JoinedInside(s)) else Blocked
    case WantEndDrain => if s.renderer.Nobody? then To(LockForDrain(s)) else Blocked
    // the drain of `end_frame` itself waits for SEALED, holding the renderer mutex
    case EndDraining => if s.sealed then To(FinishDrain(s)) else Blocked
    case Posting => To(PostJob(s))
    case StopJoining => if s.worker.Gone? then To(JoinedStop(s)) else Blocked
    case Stopped => Blocked
  }

  // ------------------------------------------------------------------------------------------ runs

  datatype Action = Worker(chance: Chance) | Producer(call: Call, luck: Chance)

  function Step(s: State, a: Action): (o: Outcome)
    ensures Inv(s) && o.To? ==> Inv(o.state)
  {
    match a
    case Worker(c) => WorkerStep(s, c)
    case Producer(call, c) => ProducerStep(s, call, c)
  }

  /** Whether an interleaving can happen, and the state it ends in. */
  function Run(actions: seq<Action>): Outcome {
    if actions == [] then To(INITIAL)
    else match Run(actions[..|actions| - 1])
      case Blocked => Blocked
      case To(s) => Step(s, actions[|actions| - 1])
  }

  /** Every state that any interleaving leads to keeps the invariant. */
  lemma {:induction false} RunKeepsInv(actions: seq<Action>)
    ensures Run(actions).To? ==> Inv(Run(actions).state)
  {
    if actions == [] {
    } else {
      RunKeepsInv(actions[..|actions| - 1]);
    }
  }

  // --------------------------------------------------------------- what the surroundings have decided

  /** Read off a run: in how many slots each sealed frame is to be presented, whether the renderer has begun the
      frame that is next or under way, and how often ImGui was due to start a frame. */
  datatype Ledger = Ledger(slots: seq<nat>, begun: bool, imguiDue: nat)

  function Entered(l: Ledger, s: State, a: Action): Ledger {
    match a
    case Worker(c) =>
      if s.worker.Sealing? then l.(slots := l.slots + [c.extraSlots + 1])
      else if s.worker.Preparing? && !c.surfaceUsable then l.(begun := false)
      else if s.worker.PreparingLocked? then l.(begun := c.rendererBegins, imguiDue := l.imguiDue + 1)
      else l
    case Producer(_, c) =>
      if s.producer.Beginning? && !c.surfaceUsable then l.(begun := false)
      else if s.producer.BeginningLocked? then l.(begun := c.rendererBegins, imguiDue := l.imguiDue + 1)
      else if s.producer.Posting? then l.(begun := false)
      else l
  }

  function LedgerOf(actions: seq<Action>): Ledger {
    if actions == [] then Ledger([], false, 0)
    else
      var most := actions[..|actions| - 1];
      if Run(most).To? then Entered(LedgerOf(most), Run(most).state, actions[|actions| - 1]) else LedgerOf(most)
  }

  /** How many slots of a frame have been encoded. */
  function EncodedOf(encoded: seq<Slot>, frame: nat): nat {
    if encoded == [] then 0
    else EncodedOf(encoded[..|encoded| - 1], frame) + if encoded[|encoded| - 1].frame == frame then 1 else 0
  }

  lemma OneMoreSlot(encoded: seq<Slot>, slot: Slot, frame: nat)
    ensures EncodedOf(encoded + [slot], frame) == EncodedOf(encoded, frame) + if slot.frame == frame then 1 else 0
  {
    assert (encoded + [slot])[..|encoded|] == encoded;
  }

  lemma {:induction false} NoSlotsOf(encoded: seq<Slot>, frame: nat)
    requires forall i | 0 <= i < |encoded| :: encoded[i].frame != frame
    ensures EncodedOf(encoded, frame) == 0
  {
    if encoded == [] {
    } else {
      NoSlotsOf(encoded[..|encoded| - 1], frame);
    }
  }

  /** All slots of the frames before the last have been encoded; those left are the last frame's. The encode
      overlaps exactly if there are more slots than one. */
  ghost predicate SlotsAccounted(s: State, l: Ledger) {
    |l.slots| == |s.seals| && (s.seals == [] ==> s.slotsLeft == 0) &&
    (forall k | 0 <= k < |l.slots| - 1 :: EncodedOf(s.encoded, k + 1) == l.slots[k]) &&
    (s.seals != [] ==>
       EncodedOf(s.encoded, |s.seals|) + s.slotsLeft == l.slots[|l.slots| - 1] &&
       (s.overlap <==> l.slots[|l.slots| - 1] > 1))
  }

  /** The flag that answers `begin_frame` says what the renderer did, wherever it is looked at. */
  ghost predicate BeginAccounted(s: State, l: Ledger) {
    (s.sealed && !s.producer.Stopped? ==> s.framePrepared == l.begun) && (!s.sealed ==> !s.framePrepared) &&
    (s.worker.PublishingSealed? ==> s.prepared == l.begun) && (Unprepared(s) ==> !l.begun)
  }

  ghost predicate Accounted(s: State, l: Ledger) {
    SlotsAccounted(s, l) && BeginAccounted(s, l) && l.imguiDue == ImGuiDue(s)
  }

  lemma SealAccounted(s: State, l: Ledger, c: Chance)
    requires Inv(s) && s.worker.Sealing? && SlotsAccounted(s, l)
    ensures SlotsAccounted(Seal(s, c), Entered(l, s, Worker(c)))
  {
    NoSlotsOf(s.encoded, s.posted);
  }

  lemma EncodeAccounted(s: State, l: Ledger)
    requires Inv(s) && Encoding(s) && SlotsAccounted(s, l)
    ensures SlotsAccounted(EncodeSlot(s), l)
  {
    forall k | 1 <= k <= |s.seals|
      ensures EncodedOf(EncodeSlot(s).encoded, k) == EncodedOf(s.encoded, k) + if k == |s.seals| then 1 else 0
    {
      OneMoreSlot(s.encoded, Slot(s.posted, s.imgui), k);
    }
  }

  lemma WorkerKeepsSlots(s: State, l: Ledger, c: Chance)
    requires Inv(s) && SlotsAccounted(s, l) && WorkerStep(s, c).To?
    ensures SlotsAccounted(WorkerStep(s, c).state, Entered(l, s, Worker(c)))
  {
    if s.worker.Sealing? {
      SealAccounted(s, l, c);
    } else if Encoding(s) {
      EncodeAccounted(s, l);
    } else {
      OtherSectionsKeepSlots(s, l, c);
    }
  }

  lemma OtherSectionsKeepSlots(s: State, l: Ledger, c: Chance)
    requires !s.worker.Sealing? && !Encoding(s) && SlotsAccounted(s, l) && WorkerStep(s, c).To?
    ensures SlotsAccounted(WorkerStep(s, c).state, Entered(l, s, Worker(c)))
  {
    SameSlotsAccounted(s, WorkerStep(s, c).state, l);
    assert Entered(l, s, Worker(c)).slots == l.slots;
  }

  lemma SameSlotsAccounted(s: State, t: State, l: Ledger)
    requires SameSlots(s, t)
    ensures SlotsAccounted(s, l) ==> SlotsAccounted(t, l)
  {
  }

  /** A section that leaves the answer alone, and enters nothing. */
  lemma SameAnswerAccounted(s: State, t: State, l: Ledger)
    requires WorkerFlags(s) && SameAnswer(s, t) && t.producer == s.producer && BeginAccounted(s, l)
    ensures BeginAccounted(t, l)
  {
  }

  lemma PreparationAccounted(s: State, l: Ledger, c: Chance)
    requires WorkerFlags(s) && s.worker.Preparing? && BeginAccounted(s, l)
    ensures BeginAccounted(CheckSurface(s, c), Entered(l, s, Worker(c)))
  {
    if c.surfaceUsable { SameAnswerAccounted(s, CheckSurface(s, c), l); }
  }

  lemma WorkerKeepsBegin(s: State, l: Ledger, c: Chance)
    requires WorkerFlags(s) && BeginAccounted(s, l) && WorkerStep(s, c).To?
    ensures BeginAccounted(WorkerStep(s, c).state, Entered(l, s, Worker(c)))
  {
    if s.worker.Preparing? {
      PreparationAccounted(s, l, c);
    } else if !s.worker.PreparingLocked? && !s.worker.PublishingSealed? {
      SameAnswerAccounted(s, WorkerStep(s, c).state, l);
    }
  }

  lemma WorkerKeepsImGui(s: State, l: Ledger, c: Chance)
    requires WorkerFlags(s) && l.imguiDue == ImGuiDue(s) && WorkerStep(s, c).To?
    ensures Entered(l, s, Worker(c)).imguiDue == ImGuiDue(WorkerStep(s, c).state)
  {
  }

  lemma ProducerKeepsSlots(s: State, l: Ledger, call: Call, c: Chance)
    requires SlotsAccounted(s, l) && ProducerStep(s, call, c).To?
    ensures SlotsAccounted(ProducerStep(s, call, c).state, Entered(l, s, Producer(call, c)))
  {
    SameSlotsAccounted(s, ProducerStep(s, call, c).state, l);
  }

  lemma ProducerKeepsImGui(s: State, l: Ledger, call: Call, c: Chance)
    requires l.imguiDue == ImGuiDue(s) && ProducerStep(s, call, c).To?
    ensures Entered(l, s, Producer(call, c)).imguiDue == ImGuiDue(ProducerStep(s, call, c).state)
  {
  }

  /** Beginning a frame inline, or handing it over. */
  lemma InlineAccounted(s: State, l: Ledger, call: Call, c: Chance)
    requires WorkerFlags(s) && ProducerFlags(s) && BeginAccounted(s, l) && ProducerStep(s, call, c).To?
    requires s.producer.Beginning? || s.producer.BeginningLocked? || s.producer.Posting?
    ensures BeginAccounted(ProducerStep(s, call, c).state, Entered(l, s, Producer(call, c)))
  {
  }

  lemma SameFlagsAccounted(s: State, t: State, l: Ledger)
    requires BeginAccounted(s, l) && ProducerSection(s, t)
    requires !s.producer.Beginning? && !s.producer.BeginningLocked? && !s.producer.Posting?
    ensures BeginAccounted(t, l)
  {
  }

  lemma ProducerKeepsBegin(s: State, l: Ledger, call: Call, c: Chance)
    requires WorkerFlags(s) && ProducerFlags(s) && BeginAccounted(s, l) && ProducerStep(s, call, c).To?
    ensures BeginAccounted(ProducerStep(s, call, c).state, Entered(l, s, Producer(call, c)))
  {
    if s.producer.Beginning? || s.producer.BeginningLocked? || s.producer.Posting? {
      InlineAccounted(s, l, call, c);
    } else {
      SameFlagsAccounted(s, ProducerStep(s, call, c).state, l);
    }
  }

  lemma {:induction false} RunAccounted(actions: seq<Action>)
    ensures Run(actions).To? ==> Accounted(Run(actions).state, LedgerOf(actions))
  {
    if actions == [] {
    } else {
      var most, a := actions[..|actions| - 1], actions[|actions| - 1];
      RunAccounted(most);
      RunKeepsInv(most);
      if Run(actions).To? {
        match a {
          case Worker(c) =>
            WorkerKeepsSlots(Run(most).state, LedgerOf(most), c);
            WorkerKeepsBegin(Run(most).state, LedgerOf(most), c);
            WorkerKeepsImGui(Run(most).state, LedgerOf(most), c);
          case Producer(call, c) =>
            ProducerKeepsSlots(Run(most).state, LedgerOf(most), call, c);
            ProducerKeepsBegin(Run(most).state, LedgerOf(most), call, c);
            ProducerKeepsImGui(Run(most).state, LedgerOf(most), call, c);
        }
      }
    }
  }

  // ----------------------------------------------------------------------------------- ownership

  /** The producer's GX drain does not meet the worker's seal or preparation, at most one frame is in
      flight, and READY is not published without SEALED. */
  predicate OwnedByOne(s: State) {
    (s.producer.Draining? || s.producer.EndDraining? ==> !SealPhase(s.worker) && !s.jobPending) &&
    !(s.jobPending && (SealPhase(s.worker) || FreePhase(s.worker))) &&
    (s.ready ==> s.sealed)
  }

  lemma DrainOwnsTheRenderer(actions: seq<Action>)
    ensures Run(actions).To? ==> OwnedByOne(Run(actions).state)
  {
    RunKeepsInv(actions);
  }

  /** Every frame handed over is sealed exactly once and in order; only a stop leaves one unsealed. */
  predicate SealedOnceInOrder(s: State) {
    (forall i | 0 <= i < |s.seals| :: s.seals[i].frame == i + 1) &&
    |s.seals| <= s.posted <= |s.seals| + 1 &&
    (s.ready && s.posted != |s.seals| ==> s.stop)
  }

  lemma EveryFrameSealedOnceInOrder(actions: seq<Action>)
    ensures Run(actions).To? ==> SealedOnceInOrder(Run(actions).state)
  {
    RunKeepsInv(actions);
  }

  /** A slot was encoded on the ImGui frame its own frame was sealed on, and after no later frame's. */
  predicate SlotMatchesSeal(s: State, k: nat)
    requires k < |s.encoded|
  {
    1 <= s.encoded[k].frame <= |s.seals| && s.seals[s.encoded[k].frame - 1] == s.encoded[k] &&
    forall j | 0 <= j < k :: s.encoded[j].frame <= s.encoded[k].frame
  }

  /** No slot of a frame is encoded after ImGui's next frame has started, and slots are encoded frame
      by frame - whether the encode overlaps the producer or not. */
  lemma SlotsUseTheirOwnImGuiFrame(actions: seq<Action>, k: nat)
    ensures Run(actions).To? && k < |Run(actions).state.encoded| ==> SlotMatchesSeal(Run(actions).state, k)
  {
    if Run(actions).To? {
      assert SlotsFresh(Run(actions).state) by { RunKeepsInv(actions); }
    }
  }

  /** A frame is encoded once for each slot it was sealed for: never more often, as often once a later frame is
      sealed, and a frame that is not sealed not at all. */
  predicate SlotsEncoded(s: State, slots: seq<nat>, frame: nat) {
    |slots| == |s.seals| &&
    if 1 <= frame < |slots| then EncodedOf(s.encoded, frame) == slots[frame - 1]
    else if frame == |slots| && slots != [] then EncodedOf(s.encoded, frame) <= slots[frame - 1]
    else EncodedOf(s.encoded, frame) == 0
  }

  lemma EverySlotIsEncodedOnce(actions: seq<Action>, frame: nat)
    ensures Run(actions).To? ==> SlotsEncoded(Run(actions).state, LedgerOf(actions).slots, frame)
  {
    RunKeepsInv(actions);
    RunAccounted(actions);
    if Run(actions).To? { AccountedMeansEncoded(Run(actions).state, LedgerOf(actions), frame); }
  }

  lemma AccountedMeansEncoded(s: State, l: Ledger, frame: nat)
    requires SlotsFresh(s) && SlotsAccounted(s, l)
    ensures SlotsEncoded(s, l.slots, frame)
  {
    if 1 <= frame < |l.slots| { assert EncodedOf(s.encoded, frame - 1 + 1) == l.slots[frame - 1]; }
    if !(1 <= frame <= |s.seals|) { NoSlotsOf(s.encoded, frame); }
  }

  /** READY means the cycle is over: the frame handed over last is sealed, and of every frame just the slots have
      been encoded that interpolation gave it. */
  ghost predicate CycleIsOver(s: State, slots: seq<nat>) {
    s.worker.Idle? && !s.jobPending && |s.seals| == s.posted == |slots| &&
    forall k | 0 <= k < |slots| :: EncodedOf(s.encoded, k + 1) == slots[k]
  }

  lemma ReadyMeansDone(actions: seq<Action>)
    ensures var o := Run(actions);
      o.To? && o.state.ready && !o.state.stop ==> CycleIsOver(o.state, LedgerOf(actions).slots)
  {
    RunKeepsInv(actions);
    RunAccounted(actions);
    if Run(actions).To? && Run(actions).state.ready && !Run(actions).state.stop {
      RestMeansOver(Run(actions).state, LedgerOf(actions));
    }
  }

  lemma RestMeansOver(s: State, l: Ledger)
    requires WorkerFlags(s) && ProducerFlags(s) && SealHistory(s) && SlotsAccounted(s, l) && s.ready && !s.stop
    ensures CycleIsOver(s, l.slots)
  {
  }

  /** A frame of one slot is encoded within the renderer mutex, any other outside of it. */
  predicate EncodesInItsPlace(s: State, slots: seq<nat>) {
    Encoding(s) ==>
      slots != [] && |slots| == |s.seals| &&
      if slots[|slots| - 1] == 1 then s.worker.EncodingLocked? && s.renderer.ByWorker?
      else s.worker.EncodingFree? && !s.renderer.ByWorker? && s.sealed && !s.ready
  }

  lemma OnlyInterpolatedFramesOverlap(actions: seq<Action>)
    ensures Run(actions).To? ==> EncodesInItsPlace(Run(actions).state, LedgerOf(actions).slots)
  {
    RunKeepsInv(actions);
    RunAccounted(actions);
  }

  /** ImGui has started one frame for each that was prepared, as soon as the cycle is over. */
  lemma EveryFrameHasItsImGuiFrame(actions: seq<Action>)
    ensures var o, due := Run(actions), LedgerOf(actions).imguiDue;
      o.To? ==> o.state.imgui <= due <= o.state.imgui + 1 && (o.state.ready && !o.state.stop ==> o.state.imgui == due)
  {
    RunKeepsInv(actions);
    RunAccounted(actions);
  }

  /** Inside `begin_frame`. */
  predicate InBegin(s: State, call: Call) {
    (s.producer.Between? && call.BeginFrame?) || s.producer.BeginJoining? || s.producer.Beginning? ||
    s.producer.BeginningLocked?
  }

  /** The early return for a worker that is not done, which does not wait for the preparation. */
  predicate ReturnsEarly(s: State, call: Call) {
    s.producer.Between? && call.BeginFrame? && !call.surfaceChanging && !s.ready
  }

  predicate Answers(s: State, call: Call, t: State, begun: bool) {
    (t.producer.InFrame? ==> begun || ReturnsEarly(s, call)) && (ReturnsEarly(s, call) ==> t.producer.InFrame?) &&
    (t.producer.Between? ==> !begun)
  }

  /** `begin_frame` answers true, which puts the producer inside a frame, only if the renderer has begun that
      frame, unless it returns early; and false only if it has not. */
  lemma BeginFrameAnswersTheRenderer(actions: seq<Action>, call: Call, c: Chance)
    ensures var o, later := Run(actions), LedgerOf(actions + [Producer(call, c)]);
      o.To? && InBegin(o.state, call) && ProducerStep(o.state, call, c).To? ==>
        Answers(o.state, call, ProducerStep(o.state, call, c).state, later.begun)
  {
    var longer := actions + [Producer(call, c)];
    assert longer[..|longer| - 1] == actions;
    RunKeepsInv(actions);
    RunKeepsInv(longer);
    RunAccounted(longer);
    if Run(actions).To? && InBegin(Run(actions).state, call) && Run(longer).To? {
      AnswerIsAccounted(Run(actions).state, call, c, LedgerOf(longer));
    }
  }

  lemma AnswerIsAccounted(s: State, call: Call, c: Chance, l: Ledger)
    requires WorkerFlags(s) && ProducerFlags(s) && InBegin(s, call) && ProducerStep(s, call, c).To?
    requires BeginAccounted(ProducerStep(s, call, c).state, l)
    ensures Answers(s, call, ProducerStep(s, call, c).state, l.begun)
  {
    if s.producer.Between? {
      FirstAnswer(s, call, c, l);
    } else {
      LaterAnswer(s, call, c, l);
    }
  }

  lemma FirstAnswer(s: State, call: Call, c: Chance, l: Ledger)
    requires WorkerFlags(s) && s.producer.Between? && call.BeginFrame? && ProducerStep(s, call, c).To?
    requires BeginAccounted(ProducerStep(s, call, c).state, l)
    ensures Answers(s, call, ProducerStep(s, call, c).state, l.begun)
  {
    var t := if s.ready then TakePrepared(s) else AllowPreparation(s, call.surfaceChanging);
    assert ProducerStep(s, call, c) == To(t);
    assert t.framePrepared == s.framePrepared && t.sealed == s.sealed;
  }

  lemma LaterAnswer(s: State, call: Call, c: Chance, l: Ledger)
    requires WorkerFlags(s) && ProducerFlags(s) && !s.producer.Between? && InBegin(s, call)
    requires ProducerStep(s, call, c).To? && BeginAccounted(ProducerStep(s, call, c).state, l)
    ensures Answers(s, call, ProducerStep(s, call, c).state, l.begun)
  {
    if s.producer.BeginJoining? {
      JoinedAnswer(s, call, l);
    } else if s.producer.BeginningLocked? {
      BegunAnswer(s, call, c, l);
    } else if !c.surfaceUsable {
      FailedAnswer(s, call, l);
    }
  }

  lemma JoinedAnswer(s: State, call: Call, l: Ledger)
    requires WorkerFlags(s) && s.producer.BeginJoining? && s.ready && BeginAccounted(JoinedBegin(s), l)
    ensures Answers(s, call, JoinedBegin(s), l.begun)
  {
  }

  lemma BegunAnswer(s: State, call: Call, c: Chance, l: Ledger)
    requires WorkerFlags(s) && s.producer.BeginningLocked? && s.ready && BeginAccounted(InlineBegin(s, c), l)
    ensures Answers(s, call, InlineBegin(s, c), l.begun)
  {
  }

  lemma FailedAnswer(s: State, call: Call, l: Ledger)
    requires WorkerFlags(s) && s.producer.Beginning? && s.ready && BeginAccounted(InlineBeginFails(s), l)
    ensures Answers(s, call, InlineBeginFails(s), l.begun)
  {
  }

  /** A permission that can be consumed was granted for the frame of this very cycle, and the next cycle
      starts without one. */
  predicate PermitIsForThisCycle(s: State) {
    s.worker.AwaitingPermit? && s.prepareAllowed && !s.stop ==>
      s.permitFor == s.posted == |s.seals| &&
      !ConsumePermit(s).prepareAllowed && !BeforePermit(ConsumePermit(s))
  }

  lemma PermissionIsForThisCycle(actions: seq<Action>)
    ensures Run(actions).To? ==> PermitIsForThisCycle(Run(actions).state)
  {
    RunKeepsInv(actions);
  }

  /** The drain inside `end_frame`, which waits for SEALED while it holds the renderer mutex, never
      actually waits, so the mutex is always given back. */
  lemma EndDrainNeverBlocks(actions: seq<Action>)
    ensures var o := Run(actions);
      o.To? && o.state.producer.EndDraining? ==>
        o.state.sealed && o.state.renderer.ByProducer? && !o.state.worker.Sealing?
  {
    RunKeepsInv(actions);
  }

  // ------------------------------------------------------------------------------------- progress

  /** Inside a frame, at its end, or stopping: what the producer waits for has not come. */
  predicate Waiting(s: State) {
    ((s.producer.BeginJoining? || s.producer.FrameJoining? || s.producer.EndJoining?) && !s.ready) ||
    (s.producer.DrainJoining? && !s.sealed) ||
    (s.producer.StopJoining? && !s.worker.Gone?)
  }

  lemma WorkerIsNotBlocked(s: State, c: Chance)
    requires Inv(s) && Waiting(s)
    ensures WorkerStep(s, c).To?
  {
    assert WorkerFlags(s) && MutexHeld(s) && Permits(s) && ProducerFlags(s);
    assert !s.renderer.ByProducer?;
  }

  /** A producer that waits within a frame, or for the worker to stop, always has a worker step that
      brings the end of its wait nearer. */
  lemma WorkerNearsReady(s: State, c: Chance)
    requires Inv(s) && Waiting(s)
    ensures WorkerStep(s, c).To?
    ensures var t := WorkerStep(s, c).state;
      Inv(t) && t.producer == s.producer &&
      (Waiting(t) ==> Rank(t) < Rank(s) || (Rank(t) == Rank(s) && t.slotsLeft < s.slotsLeft))
  {
    WorkerIsNotBlocked(s, c);
  }

  /** The worker running on its own, with whatever chance brings at each step. */
  function WorkerAlone(s: State, chances: nat -> Chance, steps: nat): State
    decreases steps
  {
    if steps == 0 then s
    else match WorkerStep(s, chances(0))
      case Blocked => s
      case To(next) => WorkerAlone(next, (n: nat) => chances(n + 1), steps - 1)
  }

  /** Whatever chance brings, the wait of a producer inside a frame comes to its end. */
  lemma {:induction false} WaitEnds(s: State, chances: nat -> Chance) returns (steps: nat)
    requires Inv(s) && Waiting(s)
    ensures Inv(WorkerAlone(s, chances, steps)) && !Waiting(WorkerAlone(s, chances, steps))
    ensures WorkerAlone(s, chances, steps).producer == s.producer
    decreases Rank(s), s.slotsLeft
  {
    WorkerNearsReady(s, chances(0));
    var t := WorkerStep(s, chances(0)).state;
    steps := 0;
    if Waiting(t) { steps := WaitEnds(t, (n: nat) => chances(n + 1)); }
    steps := steps + 1;
  }

  /** The producer going on by itself. */
  function ProducerAlone(s: State, luck: Chance, steps: nat): State
    decreases steps
  {
    if steps == 0 then s
    else match ProducerStep(s, Continue, luck)
      case Blocked => s
      case To(next) => ProducerAlone(next, luck, steps - 1)
  }

  lemma OneStepAlone(s: State, next: State, luck: Chance, steps: nat)
    requires ProducerStep(s, Continue, luck) == To(next)
    ensures ProducerAlone(s, luck, steps + 1) == ProducerAlone(next, luck, steps)
  {
  }

  lemma EndFrameGoesOn(s: State, luck: Chance)
    requires Inv(s) && s.producer.EndJoining? && s.ready
    ensures ProducerAlone(s, luck, 4) == PostJob(FinishDrain(LockForDrain(JoinedInside(s))))
  {
    assert WorkerFlags(s) && MutexHeld(s) && ProducerFlags(s);
    var drains := JoinedInside(s);
    OneStepAlone(s, drains, luck, 3);
    DrainGoesOn(drains, luck);
  }

  lemma DrainGoesOn(s: State, luck: Chance)
    requires s.producer.WantEndDrain? && s.renderer.Nobody? && s.sealed
    ensures ProducerAlone(s, luck, 3) == PostJob(FinishDrain(LockForDrain(s)))
  {
    var locked := LockForDrain(s);
    OneStepAlone(s, locked, luck, 2);
    LockedGoesOn(locked, luck);
  }

  lemma LockedGoesOn(s: State, luck: Chance)
    requires s.producer.EndDraining? && s.sealed
    ensures ProducerAlone(s, luck, 2) == PostJob(FinishDrain(s))
  {
    OneStepAlone(s, FinishDrain(s), luck, 1);
    OneStepAlone(FinishDrain(s), PostJob(FinishDrain(s)), luck, 0);
  }

  /** Every `end_frame` hands its frame over, once the worker has gone far enough. */
  lemma EndFrameHandsOver(actions: seq<Action>, chances: nat -> Chance, luck: Chance) returns (steps: nat)
    requires Run(actions).To? && Run(actions).state.producer.InFrame?
    ensures var s := Run(actions).state;
      ProducerStep(s, EndFrame, luck).To? &&
      var t := ProducerAlone(WorkerAlone(ProducerStep(s, EndFrame, luck).state, chances, steps), luck, 4);
      t.producer.Between? && t.jobPending && t.posted == s.posted + 1
  {
    RunKeepsInv(actions);
    var s := Run(actions).state;
    var waits := StartWait(s, EndJoining);
    assert ProducerStep(s, EndFrame, luck) == To(waits);
    steps := 0;
    if Waiting(waits) { steps := WaitEnds(waits, chances); }
    EndFrameGoesOn(WorkerAlone(waits, chances, steps), luck);
    PostedAlone(waits, chances, steps);
  }

  lemma {:induction false} PostedAlone(s: State, chances: nat -> Chance, steps: nat)
    ensures WorkerAlone(s, chances, steps).posted == s.posted
    decreases steps
  {
    if steps == 0 || !WorkerStep(s, chances(0)).To? {
    } else {
      PostedAlone(WorkerStep(s, chances(0)).state, (n: nat) => chances(n + 1), steps - 1);
    }
  }

  /** A stop at any point of any run ends with the worker gone and both phases released. */
  lemma StopReleasesBothPhases(actions: seq<Action>, chances: nat -> Chance) returns (steps: nat)
    ensures Run(actions).To? && Run(actions).state.producer.StopJoining? ==>
      var t := WorkerAlone(Run(actions).state, chances, steps);
      t.worker.Gone? && t.sealed && t.ready
  {
    RunKeepsInv(actions);
    steps := 0;
    if Run(actions).To? && Run(actions).state.producer.StopJoining? {
      var s := Run(actions).state;
      if Waiting(s) { steps := WaitEnds(s, chances); }
      assert WorkerFlags(WorkerAlone(s, chances, steps));
    }
  }

  /** Between `end_frame` and the next `begin_frame` the worker cannot finish: waiting for it there is
      the circular wait, for DONE and for SEALED alike. */
  lemma {:induction false} WaitingOutsideAFrameNeverEnds(s: State, chances: nat -> Chance, steps: nat)
    requires Inv(s) && OutsideFrame(s.producer) && !s.ready
    ensures var t := WorkerAlone(s, chances, steps);
      Inv(t) && t.producer == s.producer && !t.ready && !t.sealed
    decreases steps
  {
    assert WorkerFlags(s) && Permits(s);
    if steps == 0 || !WorkerStep(s, chances(0)).To? {
    } else {
      StillNotReady(s, chances(0));
      WaitingOutsideAFrameNeverEnds(WorkerStep(s, chances(0)).state, (n: nat) => chances(n + 1), steps - 1);
    }
  }

  lemma StillNotReady(s: State, c: Chance)
    requires Inv(s) && OutsideFrame(s.producer) && !s.ready && WorkerStep(s, c).To?
    ensures var t := WorkerStep(s, c).state;
      OutsideFrame(t.producer) && t.producer == s.producer && !t.ready
  {
    assert WorkerFlags(s) && ProducerFlags(s) && Permits(s);
  }

  /** ... and that is where every `end_frame` leaves the producer. */
  lemma EndFrameLeavesTheCircularWait(actions: seq<Action>, chances: nat -> Chance, steps: nat, c: Chance)
    ensures Run(actions).To? && Run(actions).state.producer.Posting? ==>
      var t := WorkerAlone(StartWaitOutside(PostJob(Run(actions).state)), chances, steps);
      !t.ready && !t.sealed && ProducerStep(t, Continue, c).Blocked?
  {
    RunKeepsInv(actions);
    if Run(actions).To? && Run(actions).state.producer.Posting? {
      WaitingOutsideAFrameNeverEnds(StartWaitOutside(PostJob(Run(actions).state)), chances, steps);
    }
  }
}
