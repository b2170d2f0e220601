/** The answers latched at call sites, and whole runs of registration, publication, lookups and calls by any
    number of threads. */
module DispatchRuns {
  import opened Basics
  import opened DispatchTable
  import opened Dispatch

  /** What happens to the registry while other threads look at it. */
  datatype Change = RegistersTable(table: Table) | Registers(info: Info) | Publishes {
    ghost predicate InWords() {
      match this
      case RegistersTable(table) => forall i | 0 <= i < |table.entries| :: InWord(table.entries[i].address)
      case Registers(info) => InWord(info.address)
      case Publishes => true
    }
  }

  /** The registry as it is at some moment. */
  datatype Snapshot = Snapshot(entries: seq<Info>, table: Option<Table>, published: bool)

  function Now(r: Registry): Snapshot
    reads r
  {
    Snapshot(r.entries, r.table, r.published)
  }

  /** A registration of the same address and rank. */
  ghost predicate IsThere(entries: seq<Info>, info: Info) {
    exists e | e in entries :: e.address == info.address && Rank(e) == Rank(info)
  }

  /** What a change makes of the registry: nothing once it is published. */
  ghost predicate Makes(change: Change, was: Snapshot, now: Snapshot) {
    if was.published then now == was
    else
      match change
      case RegistersTable(table) => now == was.(table := if was.table.None? then Some(table) else was.table)
      case Registers(info) =>
        if IsThere(was.entries, info) then now == was
        else now == was.(entries := was.entries + [info.(priority := Rank(info).0)])
      case Publishes => now == was.(published := was.table.None? || Publishable(was.table.value, was.entries))
  }

  method Apply(r: Registry, change: Change)
    requires r.Valid() && r.AddressesInWord() && change.InWords()
    modifies r
    ensures r.Valid() && r.AddressesInWord() && Makes(change, old(Now(r)), Now(r))
  {
    match change {
      case RegistersTable(table) =>
        var ok := r.RegisterTable(table);
      case Registers(info) =>
        var outcome := r.Register(info);
      case Publishes =>
        var v := r.Finalize();
    }
  }

  /** Any number of changes between two accesses of a call. */
  method Interfere(r: Registry, changes: seq<Change>)
    requires r.Valid() && r.AddressesInWord() && forall c | c in changes :: c.InWords()
    modifies r
    ensures r.Valid() && r.AddressesInWord()
    ensures old(r.published) ==> r.published && r.entries == old(r.entries) && r.table == old(r.table)
  {
    for i := 0 to |changes|
      invariant r.Valid() && r.AddressesInWord()
      invariant old(r.published) ==> r.published && r.entries == old(r.entries) && r.table == old(r.table)
    {
      Apply(r, changes[i]);
    }
  }

  datatype Verdict = Unresolved | Negative | Positive

  predicate IsBase(info: Option<Info>) {
    info.Some? && info.value.kind == BaseTranslated
  }

  /** Among registrations that leave their priority to their kind, base translation is active as long as neither
      a mod nor the runtime has registered anything for the address. */
  lemma ActiveUntilOverridden(entries: seq<Info>, address: nat)
    requires forall i | 0 <= i < |entries| && entries[i].address == address :: entries[i].priority == 0
    ensures IsBase(Winner(entries, address)) <==>
            (exists i :: 0 <= i < |entries| && entries[i].address == address) &&
            forall i | 0 <= i < |entries| && entries[i].address == address :: entries[i].kind.BaseTranslated?
  {
    WinnerRanksHighest(entries, address);
    forall i | 0 <= i < |entries| && entries[i].address == address
      ensures IsBase(Winner(entries, address)) ==> entries[i].kind.BaseTranslated?
    {
      OverridesWin(entries, address, i);
    }
  }

  /** What a call site is asked for: its target, or whether the target is still base translation. */
  datatype Query = TargetInfo | BaseActive

  datatype Reply = Target(info: Option<Info>) | Active(active: bool)

  function ReplyTo(query: Query, info: Option<Info>): Reply {
    match query
    case TargetInfo => Target(info)
    case BaseActive => Active(IsBase(info))
  }

  /** How far a thread is in a call: each step is one access to shared state. */
  datatype Progress =
    | Entered
    | Missed
    | Checked(publishable: bool)
    | Resolved(publishable: bool, info: Option<Info>)
    | Done(reply: Reply)

  /** The accesses a call still needs to resolve its target and latch it. */
  function Remaining(p: Progress): nat {
    match p
    case Entered => 4
    case Missed => 3
    case Checked(_) => 2
    case Resolved(_, _) => 1
    case Done(_) => 0
  }

  /** What a thread has read is still right: anything it will latch is the published winner. */
  ghost predicate StillRight(p: Progress, r: Registry, target: nat)
    reads r
  {
    match p
    case Checked(publishable) => publishable ==> r.published
    case Resolved(publishable, info) => publishable ==> r.published && info == Winner(r.entries, target)
    case _ => true
  }

  /** The static state of one direct call target. */
  class CallSite {
    const target: nat
    var cachedValue: Option<Option<Info>>
    var cachedVerdict: Verdict

    constructor (target: nat)
      ensures this.target == target && cachedValue == None && cachedVerdict == Unresolved
    {
      this.target, cachedValue, cachedVerdict := target, None, Unresolved;
    }

    /** A latched answer is the answer of the published registry, for good. */
    ghost predicate Coherent(r: Registry)
      reads this, r
    {
      (cachedValue.Some? ==> r.published && cachedValue.value == Winner(r.entries, target)) &&
      (cachedVerdict != Unresolved ==>
         r.published && (cachedVerdict == Positive <==> IsBase(Winner(r.entries, target))))
    }

    predicate Latched(query: Query)
      reads this
    {
      match query
      case TargetInfo => cachedValue.Some?
      case BaseActive => cachedVerdict != Unresolved
    }

    /** The next access of a call: read the latch, read the publication flag, resolve the target, latch. */
    method Step(r: Registry, memos: Memos, query: Query, p: Progress) returns (next: Progress)
      requires r.Valid() && memos.Coherent(r) && Coherent(r) && StillRight(p, r, target) && !p.Done?
      modifies this, memos.infos
      ensures memos.Coherent(r) && Coherent(r) && StillRight(next, r, target)
      ensures p.Entered? ==>
        next == if old(Latched(query)) then Done(ReplyTo(query, Winner(r.entries, target))) else Missed
      ensures p.Missed? ==> next == Checked(r.published)
      ensures p.Checked? ==> next == Resolved(p.publishable, Winner(r.entries, target))
      ensures p.Resolved? ==> next == Done(ReplyTo(query, p.info)) && (p.publishable ==> Latched(query))
      ensures !(p.Resolved? && p.publishable) ==> cachedValue == old(cachedValue) && cachedVerdict == old(cachedVerdict)
    {
      match p {
        case Entered =>
          next := match query
            case TargetInfo => if cachedValue.Some? then Done(Target(cachedValue.value)) else Missed
            case BaseActive =>
              if cachedVerdict != Unresolved then Done(Active(cachedVerdict == Positive)) else Missed;
        case Missed =>
          next := Checked(r.published);
        case Checked(publishable) =>
          var info := memos.FindByAddress(r, target);
          next := Resolved(publishable, info);
        case Resolved(publishable, info) =>
          if publishable {
            match query {
              case TargetInfo => cachedValue := Some(info);
              case BaseActive => cachedVerdict := if IsBase(info) then Positive else Negative;
            }
          }
          next := Done(ReplyTo(query, info));
      }
    }

    /** One call without a break except for what happens to the registry between its reads. */
    method Call(r: Registry, memos: Memos, query: Query, beforeCheck: seq<Change>, beforeResolve: seq<Change>)
      returns (reply: Reply)
      requires r.Valid() && r.AddressesInWord() && memos.Coherent(r) && Coherent(r)
      requires forall c | c in beforeCheck + beforeResolve :: c.InWords()
      modifies this, r, memos.infos
      ensures r.Valid() && memos.Coherent(r) && Coherent(r) && reply == ReplyTo(query, Winner(r.entries, target))
      ensures old(r.published) ==> Latched(query)
      ensures !r.published ==> !Latched(query)
    {
      var p := Step(r, memos, query, Entered);
      if p.Done? { return p.reply; }
      Interfere(r, beforeCheck);
      p := Step(r, memos, query, p);
      Interfere(r, beforeResolve);
      p := Step(r, memos, query, p);
      p := Step(r, memos, query, p);
      return p.reply;
    }

    method ResolveCached(r: Registry, memos: Memos, beforeCheck: seq<Change>, beforeResolve: seq<Change>)
      returns (info: Option<Info>)
      requires r.Valid() && r.AddressesInWord() && memos.Coherent(r) && Coherent(r)
      requires forall c | c in beforeCheck + beforeResolve :: c.InWords()
      modifies this, r, memos.infos
      ensures r.Valid() && memos.Coherent(r) && Coherent(r) && info == Winner(r.entries, target)
      ensures old(r.published) ==> cachedValue == Some(info)
      ensures !r.published ==> cachedValue == None
    {
      var reply := Call(r, memos, TargetInfo, beforeCheck, beforeResolve);
      return reply.info;
    }

    /** Publication may land between the check and the resolution: then nothing is latched, and what is
        latched is never a verdict from before publication. */
    method IsBaseTranslatedActive(r: Registry, memos: Memos, beforeCheck: seq<Change>, beforeResolve: seq<Change>)
      returns (active: bool)
      requires r.Valid() && r.AddressesInWord() && memos.Coherent(r) && Coherent(r)
      requires forall c | c in beforeCheck + beforeResolve :: c.InWords()
      modifies this, r, memos.infos
      ensures r.Valid() && memos.Coherent(r) && Coherent(r)
      ensures active <==> Winner(r.entries, target).Some? && Winner(r.entries, target).value.kind.BaseTranslated?
      ensures old(r.published) ==> cachedVerdict == if active then Positive else Negative
      ensures !r.published ==> cachedVerdict == Unresolved
    {
      var reply := Call(r, memos, BaseActive, beforeCheck, beforeResolve);
      return reply.active;
    }
  }

  // ------------------------------------------------------------------------------------ whole runs

  /** A call in progress and the event at which it began. */
  datatype Call = Call(site: nat, query: Query, since: nat, progress: Progress)

  /** One step of a run. A thread that is inside a call enters no other; one that is not has no step to take. */
  datatype Event =
    | Changes(change: Change)
    | LooksUp(thread: nat, address: nat)
    | LooksUpRaw(thread: nat, address: nat)
    | Enters(thread: nat, site: nat, query: Query)
    | Steps(thread: nat)

  datatype Answer =
    | NoAnswer
    | Found(info: Option<Info>)
    | FoundRaw(record: Option<RawRecord>)
    | Called(call: Call)

  /** Only changes alter the registry. */
  ghost predicate Happens(event: Event, was: Snapshot, now: Snapshot) {
    if event.Changes? then Makes(event.change, was, now) else now == was
  }

  ghost function Before(start: Snapshot, history: seq<Snapshot>, k: nat): Snapshot
    requires k <= |history|
  {
    if k == 0 then start else history[k - 1]
  }

  ghost predicate HappensAt(event: Event, start: Snapshot, history: seq<Snapshot>, k: nat)
    requires k < |history|
  {
    Happens(event, Before(start, history, k), history[k])
  }

  lemma HappensStill(event: Event, start: Snapshot, history: seq<Snapshot>, now: Snapshot, k: nat)
    requires k < |history| && HappensAt(event, start, history, k)
    ensures HappensAt(event, start, history + [now], k)
  {
    assert Before(start, history + [now], k) == Before(start, history, k);
  }

  /** The registry was at `start` before the events. */
  ghost predicate Explains(events: seq<Event>, start: Snapshot, history: seq<Snapshot>) {
    |history| <= |events| &&
    forall k | 0 <= k < |history| :: HappensAt(events[k], start, history, k)
  }

  lemma ExplainsNext(events: seq<Event>, start: Snapshot, history: seq<Snapshot>, now: Snapshot)
    requires Explains(events, start, history) && |history| < |events|
    requires Happens(events[|history|], Before(start, history, |history|), now)
    ensures Explains(events, start, history + [now])
  {
    forall k | 0 <= k < |history| ensures HappensAt(events[k], start, history + [now], k) {
      HappensStill(events[k], start, history, now, k);
    }
  }

  /** Publication is for good. */
  ghost predicate OnceAndForAll(history: seq<Snapshot>) {
    forall j, k | 0 <= j <= k < |history| && history[j].published :: history[k] == history[j]
  }

  /** The winner of the target at some moment since the call began. */
  ghost predicate WinnerSince(history: seq<Snapshot>, since: nat, k: nat, target: nat, info: Option<Info>) {
    exists j | since <= j <= k < |history| :: info == Winner(history[j].entries, target)
  }

  /** What a call has resolved was the winner at some moment since it began. */
  ghost predicate CallFits(call: Call, k: nat, history: seq<Snapshot>, target: nat) {
    match call.progress
    case Resolved(_, info) => WinnerSince(history, call.since, k, target, info)
    case Done(reply) =>
      exists info :: WinnerSince(history, call.since, k, target, info) && reply == ReplyTo(call.query, info)
    case _ => true
  }

  /** Each answer is what the registered functions said: at that moment, or for a call, at a moment during it. */
  ghost predicate Fits(event: Event, answer: Answer, k: nat, history: seq<Snapshot>, targets: seq<nat>)
    requires k < |history|
  {
    match event
    case Changes(_) => answer == NoAnswer
    case LooksUp(_, address) => answer == Found(Winner(history[k].entries, address))
    case LooksUpRaw(_, address) =>
      answer == FoundRaw(if history[k].published then PublishedAnswer(history[k].entries, history[k].table.Some?, address)
                         else None)
    case Enters(_, _, _) => answer == NoAnswer
    case Steps(_) =>
      answer == NoAnswer ||
      (answer.Called? && answer.call.progress.Done? && answer.call.since <= k && answer.call.site < |targets| &&
       CallFits(answer.call, k, history, targets[answer.call.site]))
  }

  lemma StillFits(call: Call, history: seq<Snapshot>, now: Snapshot, target: nat)
    requires history != [] && call.progress.Resolved? && CallFits(call, |history| - 1, history, target)
    ensures CallFits(call, |history|, history + [now], target)
  {
    var j :| call.since <= j <= |history| - 1 && call.progress.info == Winner(history[j].entries, target);
    assert (history + [now])[j] == history[j];
  }

  lemma FitsStill(event: Event, answer: Answer, k: nat, history: seq<Snapshot>, now: Snapshot, targets: seq<nat>)
    requires k < |history| && Fits(event, answer, k, history, targets)
    ensures Fits(event, answer, k, history + [now], targets)
  {
    if event.Steps? && answer.Called? {
      var call := answer.call;
      var target := targets[call.site];
      var info :| WinnerSince(history, call.since, k, target, info) && call.progress.reply == ReplyTo(call.query, info);
      var j :| call.since <= j <= k && info == Winner(history[j].entries, target);
      assert (history + [now])[j] == history[j];
      assert WinnerSince(history + [now], call.since, k, target, info);
    }
  }

  /** Each answer fits the run so far. */
  ghost predicate AllFit(events: seq<Event>, answers: seq<Answer>, history: seq<Snapshot>, targets: seq<nat>) {
    |answers| == |history| <= |events| &&
    forall k | 0 <= k < |answers| :: Fits(events[k], answers[k], k, history, targets)
  }

  lemma AllFitNext(events: seq<Event>, answers: seq<Answer>, answer: Answer, history: seq<Snapshot>, now: Snapshot,
                   targets: seq<nat>)
    requires AllFit(events, answers, history, targets) && |history| < |events|
    requires Fits(events[|history|], answer, |history|, history + [now], targets)
    ensures AllFit(events, answers + [answer], history + [now], targets)
  {
    var more := answers + [answer];
    forall k | 0 <= k < |more| ensures Fits(events[k], more[k], k, history + [now], targets) {
      if k < |answers| { FitsStill(events[k], answers[k], k, history, now, targets); }
    }
  }

  /** What a call has resolved, or is answered from the latch, is the winner now or what it had resolved before. */
  predicate Follows(call: Call, next: Progress, entries: seq<Info>, target: nat) {
    match next
    case Resolved(_, info) => info == Winner(entries, target)
    case Done(reply) =>
      reply == ReplyTo(call.query, if call.progress.Resolved? then call.progress.info else Winner(entries, target))
    case _ => true
  }

  lemma MovedFits(call: Call, next: Progress, history: seq<Snapshot>, target: nat)
    requires call.since < |history| && Follows(call, next, history[|history| - 1].entries, target)
    requires call.progress.Resolved? ==> CallFits(call, |history| - 1, history, target)
    ensures CallFits(call.(progress := next), |history| - 1, history, target)
  {
    var k := |history| - 1;
    assert WinnerSince(history, call.since, k, target, Winner(history[k].entries, target));
  }

  /** A registry, the threads that use it, each with its memos, and the call sites they share. */
  class Process {
    const r: Registry
    const memos: seq<Memos>
    const sites: seq<CallSite>
    var calls: seq<Option<Call>>
    var history: seq<Snapshot>

    ghost function Repr(): set<object> {
      {this, r} + (set m | m in memos :: m.infos) + (set m | m in memos :: m.raw) + (set c | c in sites)
    }

    ghost predicate Separate() {
      (forall i, j | 0 <= i < j < |memos| :: memos[i].infos != memos[j].infos && memos[i].raw != memos[j].raw) &&
      (forall i, j | 0 <= i < j < |sites| :: sites[i] != sites[j])
    }

    ghost function Targets(): seq<nat> {
      seq(|sites|, i requires 0 <= i < |sites| => sites[i].target)
    }

    ghost predicate CallRight(call: Call)
      reads this, r
    {
      call.site < |sites| && call.since < |history| && !call.progress.Done? &&
      StillRight(call.progress, r, sites[call.site].target) &&
      (call.progress.Resolved? ==> CallFits(call, |history| - 1, history, sites[call.site].target))
    }

    /** The registry is valid, all memos and latches are right, and so is what threads in a call have read. */
    ghost predicate Valid()
      reads Repr()
    {
      r.Valid() && r.AddressesInWord() && Separate() && |calls| == |memos| &&
      (forall i | 0 <= i < |memos| :: memos[i].Coherent(r)) &&
      (forall i | 0 <= i < |sites| :: sites[i].Coherent(r)) &&
      (forall i | 0 <= i < |calls| && calls[i].Some? :: CallRight(calls[i].value)) &&
      OnceAndForAll(history) &&
      (forall k | 0 <= k < |history| && history[k].published :: history[k] == Now(r))
    }

    /** Nothing registered, nothing remembered, nothing latched, and nobody in a call. */
    constructor (r: Registry, memos: seq<Memos>, sites: seq<CallSite>)
      requires r.Valid() && r.AddressesInWord()
      requires forall i, j | 0 <= i < j < |memos| :: memos[i].infos != memos[j].infos && memos[i].raw != memos[j].raw
      requires forall i, j | 0 <= i < j < |sites| :: sites[i] != sites[j]
      requires (forall m | m in memos :: m.Coherent(r)) && forall c | c in sites :: c.Coherent(r)
      ensures Valid() && this.r == r && this.memos == memos && this.sites == sites && history == []
    {
      this.r, this.memos, this.sites, history := r, memos, sites, [];
      calls := seq(|memos|, _ => None);
    }

    predicate Possible(event: Event) {
      match event
      case Changes(_) => true
      case LooksUp(thread, _) => thread < |memos|
      case LooksUpRaw(thread, address) => thread < |memos| && InWord(address)
      case Enters(thread, site, _) => thread < |memos| && site < |sites|
      case Steps(thread) => thread < |memos|
    }

    method Change(change: Change)
      requires Valid() && change.InWords()
      modifies this`history, r
      ensures Valid() && history == old(history) + [Now(r)] && Makes(change, old(Now(r)), Now(r))
    {
      Alter(change);
      Record();
    }

    method Alter(change: Change)
      requires Valid() && change.InWords()
      modifies r
      ensures Valid() && Makes(change, old(Now(r)), Now(r))
    {
      Apply(r, change);
    }

    /** What was right stays right in the longer history. */
    method Record()
      requires Valid()
      modifies this`history
      ensures Valid() && history == old(history) + [Now(r)]
    {
      ghost var longer := history + [Now(r)];
      forall i | 0 <= i < |calls| && calls[i].Some?
        ensures calls[i].value.progress.Resolved? ==>
                CallFits(calls[i].value, |longer| - 1, longer, sites[calls[i].value.site].target)
      {
        var call := calls[i].value;
        if call.progress.Resolved? { StillFits(call, history, Now(r), sites[call.site].target); }
      }
      history := history + [Now(r)];
    }

    method LookUp(thread: nat, address: nat) returns (info: Option<Info>)
      requires Valid() && thread < |memos|
      modifies this`history, memos[thread].infos
      ensures Valid() && history == old(history) + [Now(r)] && info == Winner(r.entries, address)
      ensures Now(r) == old(Now(r))
    {
      info := memos[thread].FindByAddress(r, address);
      Record();
    }

    method LookUpRaw(thread: nat, address: nat) returns (record: Option<RawRecord>)
      requires Valid() && thread < |memos| && InWord(address)
      modifies this`history, memos[thread].raw
      ensures Valid() && history == old(history) + [Now(r)]
      ensures record == if r.published then PublishedAnswer(r.entries, r.table.Some?, address) else None
    {
      record := memos[thread].FindRawByAddress(r, address);
      Record();
    }

    method Enter(thread: nat, site: nat, query: Query)
      requires Valid() && thread < |memos| && site < |sites|
      modifies this`history, this`calls
      ensures Valid() && history == old(history) + [Now(r)]
      ensures calls == if old(calls[thread]).Some? then old(calls)
                       else old(calls)[thread := Some(Call(site, query, |old(history)|, Entered))]
    {
      Record();
      if calls[thread].None? { Move(thread, Some(Call(site, query, |history| - 1, Entered))); }
    }

    method Move(thread: nat, moved: Option<Call>)
      requires Valid() && thread < |memos| && (moved.Some? ==> CallRight(moved.value))
      modifies this`calls
      ensures Valid() && calls == old(calls)[thread := moved]
    {
      calls := calls[thread := moved];
    }

    method Access(thread: nat, call: Call) returns (next: Progress)
      requires Valid() && thread < |memos| && calls[thread] == Some(call)
      modifies sites, memos[thread].infos
      ensures Valid() && StillRight(next, r, sites[call.site].target)
      ensures Follows(call, next, r.entries, sites[call.site].target)
      ensures Remaining(next) < Remaining(call.progress)
    {
      next := sites[call.site].Step(r, memos[thread], call.query, call.progress);
    }

    /** The next access of the thread's call; the call is over when it has its reply. */
    method Proceed(thread: nat) returns (answer: Answer)
      requires Valid() && thread < |memos|
      modifies this`history, this`calls, sites, memos[thread].infos
      ensures Valid() && history == old(history) + [Now(r)]
      ensures Fits(Steps(thread), answer, |history| - 1, history, Targets())
      ensures old(calls[thread]).None? ==> answer == NoAnswer && calls == old(calls)
      ensures old(calls[thread]).Some? ==>
                if answer.Called? then calls == old(calls)[thread := None]
                else calls[thread].Some? &&
                     Remaining(calls[thread].value.progress) < Remaining(old(calls[thread]).value.progress)
    {
      if calls[thread].None? {
        Record();
        return NoAnswer;
      }
      var call := calls[thread].value;
      var next := Access(thread, call);
      Record();
      MovedFits(call, next, history, sites[call.site].target);
      var moved := call.(progress := next);
      Move(thread, if next.Done? then None else Some(moved));
      return if next.Done? then Called(moved) else NoAnswer;
    }

    method Take(event: Event) returns (answer: Answer)
      requires Valid() && Possible(event) && (event.Changes? ==> event.change.InWords())
      modifies Repr()
      ensures Valid() && history == old(history) + [Now(r)] && Happens(event, old(Now(r)), Now(r))
      ensures Fits(event, answer, |history| - 1, history, Targets())
    {
      match event {
        case Changes(change) =>
          Change(change);
          answer := NoAnswer;
        case LooksUp(thread, address) =>
          var info := LookUp(thread, address);
          answer := Found(info);
        case LooksUpRaw(thread, address) =>
          var record := LookUpRaw(thread, address);
          answer := FoundRaw(record);
        case Enters(thread, site, query) =>
          Enter(thread, site, query);
          answer := NoAnswer;
        case Steps(thread) =>
          answer := Proceed(thread);
      }
    }

    /** Over every run, in every interleaving of any number of threads: all memos and latches hold what the
        published registry says and nothing from before, every lookup answers the winner of that moment,
        and every call a winner of a moment during it. */
    method Run(events: seq<Event>) returns (answers: seq<Answer>)
      requires Valid() && history == []
      requires forall event | event in events :: Possible(event) && (event.Changes? ==> event.change.InWords())
      modifies Repr()
      ensures Valid() && |answers| == |history| == |events|
      ensures AllFit(events, answers, history, Targets()) && Explains(events, old(Now(r)), history)
    {
      answers := [];
      for i := 0 to |events|
        invariant Valid() && |answers| == |history| == i
        invariant AllFit(events, answers, history, Targets()) && Explains(events, old(Now(r)), history)
        invariant Now(r) == Before(old(Now(r)), history, i)
      {
        ghost var before, was := history, Now(r);
        var answer := Take(events[i]);
        assert Happens(events[i], was, Now(r));
        AllFitNext(events, answers, answer, before, Now(r), Targets());
        ExplainsNext(events, old(Now(r)), before, Now(r));
        answers := answers + [answer];
      }
    }
  }

  /** Once a registry is published, every call begun since then, and every lookup, answers what the registry
      says at the end of the run. */
  lemma AnswersAreFinal(history: seq<Snapshot>, j: nat, k: nat, event: Event, answer: Answer, targets: seq<nat>)
    requires OnceAndForAll(history) && j <= k < |history| && history[j].published
    requires Fits(event, answer, k, history, targets)
    ensures var entries := history[|history| - 1].entries;
      (event.LooksUp? ==> answer == Found(Winner(entries, event.address))) &&
      (answer.Called? && answer.call.since >= j ==>
         answer.call.progress.reply == ReplyTo(answer.call.query, Winner(entries, targets[answer.call.site])))
  {
    assert history[k] == history[j] == history[|history| - 1];
    if answer.Called? && answer.call.since >= j {
      var call := answer.call;
      var target := targets[call.site];
      var info :| WinnerSince(history, call.since, k, target, info) && call.progress.reply == ReplyTo(call.query, info);
      var i :| call.since <= i <= k && info == Winner(history[i].entries, target);
      assert history[i] == history[j];
    }
  }
}
