/**
 One stream of the service and the pods that poll it, as steps in any interleaving: the runner reads
 and writes the record under separate locks, pods ask and are answered, requests get lost, and the
 service restarts with a run id it never used before.
 */
module NexusProtocol {
  import opened Wrappers
  import opened Sequences
  import opened Etag
  import opened LatestPrices
  import opened FeedRunner

  // ---------------------------------------------------------------- the HTTP answer

  datatype Response<+D> = Ok200(etag: string, message: Message<D>) | NotModified304(etag: string) | NoContent204

  /** The answer to a request whose If-None-Match header is `header`, compared byte by byte. */
  function Answer<D>(runId: nat, record: Record<D>, header: Option<string>): Response<D> {
    if record.encoded.None? then NoContent204
    else
      var etag := Tag(runId, record.seqNo);
      if header == Some(etag) then NotModified304(etag) else Ok200(etag, record.encoded.value)
  }

  // ---------------------------------------------------------------- state

  /** Where the runner is. `Writing` lies between its read of the record and its write. */
  datatype Control<+D> =
    | Starting
    | Following
    | Writing(record: Record<D>, next: Control<D>)
    | Backoff
    | Stopped

  datatype Id = Id(runId: nat, seqNo: nat)

  datatype Exchange<+D> = Idle | Asked(header: Option<string>) | Answered(response: Response<D>)

  /**
   A pod: the tag it sends, the last message it applied and its request in flight; and, to state
   properties, the message it got with the tag and every message it applied.
   */
  datatype Pod<+D> = Pod(
    etag: Option<string>,
    lastApplied: Option<Id>,
    exchange: Exchange<D>,
    stored: Option<Message<D>>,
    applied: seq<Id>)

  datatype Last = NoEvent | LastPublished | LastWithdrawn

  /**
   The service and its pods. `runs` are the run ids so far, the current one last; `publishes` and
   `withdrawals` count this run's writes; `issued` is every message ever written.
   */
  datatype System<D> = System(
    runs: seq<nat>,
    record: Record<D>,
    control: Control<D>,
    last: Last,
    publishes: nat,
    withdrawals: nat,
    issued: map<Id, Message<D>>,
    pods: map<nat, Pod<D>>)
  {
    function RunId(): nat
      requires |runs| > 0
    {
      runs[|runs| - 1]
    }
  }

  ghost predicate Init<D>(s: System<D>) {
    && |s.runs| == 1 && s.record.seqNo == 0 && s.record.encoded.None? && s.record.state.AwaitingSnapshot?
    && s.control == Starting && s.last == NoEvent && s.publishes == 0 && s.withdrawals == 0
    && s.issued == map[]
    && forall p | p in s.pods :: s.pods[p] == Pod(None, None, Idle, None, [])
  }

  // ---------------------------------------------------------------- steps

  /** What a pod makes of a message: books, too old to use, no books from its data, or no message at all. */
  datatype Reading = Usable | TooOld | Unassembled | Undecodable

  datatype Action<+D> =
    | StartFeed
    | FailStart(error: FeedError)
    | ReadPublish(prices: D, at: Time)
    | ReadStale
    | ReadEnd(outcome: Outcome)
    | Write
    | WakeUp
    | Ask(pod: nat)
    | Serve(pod: nat)
    | Lose(pod: nat)
    | Receive(pod: nat, reading: Reading)
    | RestartService(runId: nat, now: Time)

  function After<D>(decision: Decision): Control<D> {
    if decision == Stop then Stopped else Backoff
  }

  /** The read half of a withdrawal: nothing to write if the stream is withdrawn already. */
  function ReadWithdraw<D>(s: System<D>, next: Control<D>): Control<D>
    requires |s.runs| > 0
  {
    var written := Withdraw(s.RunId(), s.record);
    if written.Some? then Writing(written.value, next) else next
  }

  ghost predicate RunnerStep<D>(s: System<D>, s': System<D>, a: Action<D>)
    requires |s.runs| > 0
  {
    match a
    case StartFeed => s.control == Starting && s' == s.(control := Following, last := NoEvent)
    case FailStart(error) => s.control == Starting && s' == s.(control := After(DecisionForError(error)))
    case ReadPublish(prices, at) =>
      && s.control == Following
      && s' == s.(control := Writing(Publish(s.RunId(), s.record, prices, at), Following), last := LastPublished)
    case ReadStale =>
      s.control == Following && s' == s.(control := ReadWithdraw(s, Following), last := LastWithdrawn)
    case ReadEnd(outcome) =>
      s.control == Following && s' == s.(control := ReadWithdraw(s, After(DecisionFor(outcome))), last := LastWithdrawn)
    case Write =>
      && s.control.Writing?
      && var r := s.control.record;
         s' == s.(
           record := r,
           control := s.control.next,
           publishes := s.publishes + (if HasPrices(r) then 1 else 0),
           withdrawals := s.withdrawals + (if HasPrices(r) then 0 else 1),
           issued := if r.encoded.Some? then s.issued[Id(s.RunId(), r.seqNo) := r.encoded.value] else s.issued)
    case WakeUp => s.control == Backoff && s' == s.(control := Starting)
    case RestartService(runId, now) =>
      && runId !in s.runs
      && s' == s.(runs := s.runs + [runId], record := FreshRecord(now), control := Starting, last := NoEvent,
                  publishes := 0, withdrawals := 0)
    case _ => false
  }

  predicate IsReplay(lastApplied: Option<Id>, id: Id) {
    lastApplied.Some? && lastApplied.value.runId == id.runId && id.seqNo <= lastApplied.value.seqNo
  }

  /**
   A pod takes a response. A message it cannot read leaves it as it was; any other sets its tag, and
   is applied unless it was applied before or is too old.
   */
  function PodReceives<D>(pod: Pod<D>, response: Response<D>, reading: Reading): Pod<D> {
    var idle := pod.(exchange := Idle);
    match response
    case Ok200(etag, m) =>
      var id := Id(m.runId, m.seqNo);
      var tagged := idle.(etag := Some(etag), stored := Some(m));
      var done := tagged.(lastApplied := Some(id), applied := pod.applied + [id]);
      if reading == Undecodable then idle
      else if IsReplay(pod.lastApplied, id) then tagged
      else if m.body.NoPrices? || reading == Usable then done
      else if reading == TooOld then tagged
      else idle
    case NotModified304(_) => idle
    case NoContent204 => idle
  }

  ghost predicate PodStep<D>(s: System<D>, s': System<D>, a: Action<D>)
    requires |s.runs| > 0
  {
    match a
    case Ask(p) =>
      && p in s.pods && s.pods[p].exchange == Idle
      && s' == s.(pods := s.pods[p := s.pods[p].(exchange := Asked(s.pods[p].etag))])
    case Serve(p) =>
      && p in s.pods && s.pods[p].exchange.Asked?
      && var response := Answer(s.RunId(), s.record, s.pods[p].exchange.header);
         s' == s.(pods := s.pods[p := s.pods[p].(exchange := Answered(response))])
    case Lose(p) =>
      && p in s.pods
      && s' == s.(pods := s.pods[p := s.pods[p].(exchange := Idle)])
    case Receive(p, reading) =>
      && p in s.pods && s.pods[p].exchange.Answered?
      && s' == s.(pods := s.pods[p := PodReceives(s.pods[p], s.pods[p].exchange.response, reading)])
    case _ => false
  }

  ghost predicate Next<D>(s: System<D>, s': System<D>, a: Action<D>) {
    |s.runs| > 0 && (RunnerStep(s, s', a) || PodStep(s, s', a))
  }

  /** A run of the system: `states[i + 1]` follows `states[i]` by `actions[i]`. */
  ghost predicate Execution<D>(states: seq<System<D>>, actions: seq<Action<D>>) {
    && |states| == |actions| + 1
    && Init(states[0])
    && forall i | 0 <= i < |actions| :: Next(states[i], states[i + 1], actions[i])
  }

  // ---------------------------------------------------------------- the order of messages

  function RunIndex(runs: seq<nat>, r: nat): (i: nat)
    requires r in runs
    ensures i < |runs| && runs[i] == r
  {
    if runs[|runs| - 1] == r then |runs| - 1 else RunIndex(runs[..|runs| - 1], r)
  }

  /** `a` was written before `b`: in an earlier run, or earlier in the same run. */
  predicate Before(runs: seq<nat>, a: Id, b: Id) {
    && a.runId in runs && b.runId in runs
    && (RunIndex(runs, a.runId) < RunIndex(runs, b.runId) || (a.runId == b.runId && a.seqNo < b.seqNo))
  }

  // ---------------------------------------------------------------- the invariant

  ghost predicate StreamInv<D>(s: System<D>) {
    && |s.runs| > 0 && Unique(s.runs)
    && Consistent(s.RunId(), s.record)
    && s.record.seqNo == s.publishes + s.withdrawals
    && (forall id | id in s.issued :: IssuedInv(s, id))
    && (s.record.encoded.Some? ==>
          var id := Id(s.RunId(), s.record.seqNo);
          id in s.issued && s.issued[id] == s.record.encoded.value)
  }

  ghost predicate IssuedInv<D>(s: System<D>, id: Id)
    requires |s.runs| > 0 && id in s.issued
  {
    && s.issued[id].runId == id.runId && s.issued[id].seqNo == id.seqNo
    && id.runId in s.runs
    && (id.runId == s.RunId() ==> id.seqNo <= s.record.seqNo)
  }

  ghost predicate RunnerInv<D>(s: System<D>)
    requires |s.runs| > 0
  {
    match s.control
    case Starting => !HasPrices(s.record)
    case Backoff => !HasPrices(s.record)
    case Stopped => !HasPrices(s.record)
    case Following => HasPrices(s.record) <==> s.last == LastPublished
    case Writing(r, next) =>
      && r.seqNo == s.record.seqNo + 1 && Consistent(s.RunId(), r)
      && (next == Following || next == Backoff || next == Stopped)
      && (HasPrices(r) <==> s.last == LastPublished)
      && (next != Following ==> !HasPrices(r))
  }

  ghost predicate PodInv<D>(runs: seq<nat>, issued: map<Id, Message<D>>, pod: Pod<D>) {
    && (pod.etag.Some? ==> pod.stored.Some? && Issued(issued, pod.etag.value, pod.stored.value))
    && (pod.exchange.Asked? ==> pod.exchange.header == pod.etag)
    && (pod.exchange.Answered? && pod.exchange.response.Ok200? ==>
          var m := pod.exchange.response.message;
          && Issued(issued, pod.exchange.response.etag, m) && m.runId in runs
          && (pod.lastApplied.Some? ==>
                && pod.lastApplied.value.runId in runs
                && RunIndex(runs, pod.lastApplied.value.runId) <= RunIndex(runs, m.runId)))
    && AppliedInv(runs, pod)
  }

  ghost predicate AppliedInv<D>(runs: seq<nat>, pod: Pod<D>) {
    && (pod.lastApplied == if |pod.applied| == 0 then None else Some(pod.applied[|pod.applied| - 1]))
    && (forall i | 0 <= i < |pod.applied| :: pod.applied[i].runId in runs)
    && (forall i, j | 0 <= i < j < |pod.applied| :: Before(runs, pod.applied[i], pod.applied[j]))
  }

  /** The tag is the message's and the message was written. */
  ghost predicate Issued<D>(issued: map<Id, Message<D>>, etag: string, m: Message<D>) {
    && etag == Tag(m.runId, m.seqNo)
    && Id(m.runId, m.seqNo) in issued && issued[Id(m.runId, m.seqNo)] == m
  }

  ghost predicate Inv<D>(s: System<D>) {
    && StreamInv(s) && RunnerInv(s)
    && forall p | p in s.pods :: PodInv(s.runs, s.issued, s.pods[p])
  }

  // ---------------------------------------------------------------- every step keeps it

  lemma InitInv<D>(s: System<D>)
    requires Init(s)
    ensures Inv(s)
  {}

  lemma RunnerKeepsRunner<D>(s: System<D>, s': System<D>, a: Action<D>)
    requires Inv(s) && RunnerStep(s, s', a)
    ensures |s'.runs| > 0 && RunnerInv(s')
  {
    hide PodInv, IssuedInv;
  }

  lemma RunnerKeepsStream<D>(s: System<D>, s': System<D>, a: Action<D>)
    requires Inv(s) && RunnerStep(s, s', a)
    ensures StreamInv(s')
  {
    hide PodInv, Consistent, IssuedInv;
    RunnerKeepsRecord(s, s', a);
    forall id | id in s'.issued
      ensures IssuedInv(s', id)
    {
      StaysIssued(s, s', a, id);
    }
  }

  lemma RunnerKeepsRecord<D>(s: System<D>, s': System<D>, a: Action<D>)
    requires Inv(s) && RunnerStep(s, s', a)
    ensures |s'.runs| > 0 && Unique(s'.runs) && Consistent(s'.RunId(), s'.record)
    ensures s'.record.seqNo == s'.publishes + s'.withdrawals
    ensures s'.record.encoded.Some? ==>
              var id := Id(s'.RunId(), s'.record.seqNo);
              id in s'.issued && s'.issued[id] == s'.record.encoded.value
  {
    hide PodInv, IssuedInv;
  }

  lemma StaysIssued<D>(s: System<D>, s': System<D>, a: Action<D>, id: Id)
    requires Inv(s) && RunnerStep(s, s', a) && id in s'.issued
    ensures |s'.runs| > 0 && IssuedInv(s', id)
  {
    hide PodInv;
    if id in s.issued {
      assert IssuedInv(s, id);
    }
  }

  /** What was issued stays issued: a write uses a sequence number this run has not used. */
  lemma IssuedGrows<D>(s: System<D>, s': System<D>, a: Action<D>)
    requires Inv(s) && RunnerStep(s, s', a)
    ensures s.runs <= s'.runs
    ensures forall id | id in s.issued :: id in s'.issued && s'.issued[id] == s.issued[id]
  {
    if a.Write? {
      var id := Id(s.RunId(), s.control.record.seqNo);
      assert id in s.issued ==> IssuedInv(s, id);
    }
  }

  lemma {:induction false} RunIndexStable(runs: seq<nat>, more: seq<nat>, r: nat)
    requires r in runs && runs <= more && |more| <= |runs| + 1 && Unique(more)
    ensures r in more && RunIndex(more, r) == RunIndex(runs, r)
  {
    assert runs[RunIndex(runs, r)] == r == more[RunIndex(runs, r)];
  }

  lemma PodKept<D>(
    runs: seq<nat>, issued: map<Id, Message<D>>, runs': seq<nat>, issued': map<Id, Message<D>>, pod: Pod<D>)
    requires PodInv(runs, issued, pod) && runs <= runs' && |runs'| <= |runs| + 1 && Unique(runs')
    requires forall id | id in issued :: id in issued' && issued'[id] == issued[id]
    ensures PodInv(runs', issued', pod)
  {
    forall i, j | 0 <= i < j < |pod.applied|
      ensures Before(runs', pod.applied[i], pod.applied[j])
    {
      assert Before(runs, pod.applied[i], pod.applied[j]);
      RunIndexStable(runs, runs', pod.applied[i].runId);
      RunIndexStable(runs, runs', pod.applied[j].runId);
    }
    if pod.exchange.Answered? && pod.exchange.response.Ok200? {
      RunIndexStable(runs, runs', pod.exchange.response.message.runId);
      if pod.lastApplied.Some? {
        RunIndexStable(runs, runs', pod.lastApplied.value.runId);
      }
    }
  }

  lemma RunnerKeepsInv<D>(s: System<D>, s': System<D>, a: Action<D>)
    requires Inv(s) && RunnerStep(s, s', a)
    ensures Inv(s')
  {
    RunnerKeepsStream(s, s', a);
    RunnerKeepsRunner(s, s', a);
    IssuedGrows(s, s', a);
    forall p | p in s'.pods
      ensures PodInv(s'.runs, s'.issued, s'.pods[p])
    {
      PodKept(s.runs, s.issued, s'.runs, s'.issued, s.pods[p]);
    }
  }

  /** The message applied next comes after every message applied before. */
  lemma ApplyKeepsOrder<D>(runs: seq<nat>, pod: Pod<D>, id: Id)
    requires AppliedInv(runs, pod) && id.runId in runs && Unique(runs) && !IsReplay(pod.lastApplied, id)
    requires pod.lastApplied.Some? ==> RunIndex(runs, pod.lastApplied.value.runId) <= RunIndex(runs, id.runId)
    ensures forall i | 0 <= i < |pod.applied| :: Before(runs, pod.applied[i], id)
  {
    if |pod.applied| > 0 {
      var n := |pod.applied| - 1;
      assert Before(runs, pod.applied[n], id);
      forall i | 0 <= i < n
        ensures Before(runs, pod.applied[i], id)
      {
        assert Before(runs, pod.applied[i], pod.applied[n]);
      }
    }
  }

  lemma ReceiveKeepsPod<D>(runs: seq<nat>, issued: map<Id, Message<D>>, pod: Pod<D>, reading: Reading)
    requires PodInv(runs, issued, pod) && pod.exchange.Answered? && Unique(runs)
    ensures PodInv(runs, issued, PodReceives(pod, pod.exchange.response, reading))
  {
    hide RunIndex, Unique;
    var response := pod.exchange.response;
    if response.Ok200? {
      var id := Id(response.message.runId, response.message.seqNo);
      if !IsReplay(pod.lastApplied, id) {
        ApplyKeepsOrder(runs, pod, id);
      }
    }
  }

  lemma ServeKeepsPod<D>(s: System<D>, pod: Pod<D>)
    requires StreamInv(s) && PodInv(s.runs, s.issued, pod) && pod.exchange.Asked?
    ensures PodInv(s.runs, s.issued, pod.(exchange := Answered(Answer(s.RunId(), s.record, pod.exchange.header))))
  {
    assert s.RunId() in s.runs;
    assert RunIndex(s.runs, s.RunId()) == |s.runs| - 1;
  }

  lemma PodsKeepInv<D>(s: System<D>, s': System<D>, a: Action<D>)
    requires Inv(s) && PodStep(s, s', a)
    ensures Inv(s')
  {
    hide PodInv, IssuedInv, RunnerInv;
    var p := a.pod;
    assert PodInv(s.runs, s.issued, s.pods[p]);
    PodStepKeepsPod(s, s', a);
    StreamUntouched(s, s', a);
  }

  lemma StreamUntouched<D>(s: System<D>, s': System<D>, a: Action<D>)
    requires Inv(s) && PodStep(s, s', a)
    ensures StreamInv(s') && RunnerInv(s')
  {
    hide PodInv, PodReceives, Answer;
    assert forall id | id in s'.issued :: IssuedInv(s, id) ==> IssuedInv(s', id);
  }

  lemma PodStepKeepsPod<D>(s: System<D>, s': System<D>, a: Action<D>)
    requires StreamInv(s) && PodStep(s, s', a) && PodInv(s.runs, s.issued, s.pods[a.pod])
    ensures a.pod in s'.pods && PodInv(s'.runs, s'.issued, s'.pods[a.pod])
  {
    var p := a.pod;
    if a.Serve? {
      ServeKeepsPod(s, s.pods[p]);
    } else if a.Receive? {
      ReceiveKeepsPod(s.runs, s.issued, s.pods[p], a.reading);
    }
  }

  lemma NextKeepsInv<D>(s: System<D>, s': System<D>, a: Action<D>)
    requires Inv(s) && Next(s, s', a)
    ensures Inv(s')
  {
    if RunnerStep(s, s', a) {
      RunnerKeepsInv(s, s', a);
    } else {
      PodsKeepInv(s, s', a);
    }
  }

  // ---------------------------------------------------------------- over every run of the system

  lemma {:induction false} AlwaysInv<D>(states: seq<System<D>>, actions: seq<Action<D>>, i: nat)
    requires Execution(states, actions) && i < |states|
    ensures Inv(states[i])
  {
    if i == 0 {
      InitInv(states[0]);
    } else {
      AlwaysInv(states, actions, i - 1);
      NextKeepsInv(states[i - 1], states[i], actions[i - 1]);
    }
  }

  /**
   A pod is told 304 exactly when it holds a tag and the message it stored with the tag is the
   stream's current message, across publishes, withdrawals, lost requests and restarts.
   */
  lemma NotModifiedIffCurrent<D>(states: seq<System<D>>, actions: seq<Action<D>>, i: nat)
    requires Execution(states, actions) && i < |actions| && actions[i].Serve?
    ensures var s, s', p := states[i], states[i + 1], actions[i].pod;
            && p in s.pods && p in s'.pods && s'.pods[p].exchange.Answered?
            && (s'.pods[p].exchange.response.NotModified304? <==>
                  s.pods[p].etag.Some? && s.record.encoded.Some? && s.record.encoded == s.pods[p].stored)
  {
    AlwaysInv(states, actions, i);
    var s, p := states[i], actions[i].pod;
    assert Next(s, states[i + 1], actions[i]);
    var pod := s.pods[p];
    assert PodInv(s.runs, s.issued, pod);
    if states[i + 1].pods[p].exchange.response.NotModified304? {
      TagInjective(s.RunId(), s.record.seqNo, pod.stored.value.runId, pod.stored.value.seqNo);
    }
  }

  /** Every other answer is the current message itself, or says there is none. */
  lemma AnswerIsCurrent<D>(states: seq<System<D>>, actions: seq<Action<D>>, i: nat)
    requires Execution(states, actions) && i < |actions| && actions[i].Serve?
    ensures var s, s', p := states[i], states[i + 1], actions[i].pod;
            && p in s'.pods && s'.pods[p].exchange.Answered?
            && var r := s'.pods[p].exchange.response;
               && (r.NoContent204? <==> s.record.state.AwaitingSnapshot?)
               && (r.Ok200? ==> s.record.encoded == Some(r.message) && r.etag == Tag(r.message.runId, r.message.seqNo))
               && (r.NotModified304? ==>
                     && s.record.encoded.Some?
                     && r.etag == Tag(s.record.encoded.value.runId, s.record.encoded.value.seqNo))
  {
    AlwaysInv(states, actions, i);
    assert Next(states[i], states[i + 1], actions[i]);
  }

  /** How many of the first `i` steps, since the service last restarted, wrote prices or a withdrawal. */
  ghost function Writes<D>(states: seq<System<D>>, actions: seq<Action<D>>, i: nat, prices: bool): nat
    requires |states| == |actions| + 1 && i < |states|
  {
    if i == 0 || actions[i - 1].RestartService? then 0
    else
      Writes(states, actions, i - 1, prices)
      + if actions[i - 1].Write? && HasPrices(states[i].record) == prices then 1 else 0
  }

  lemma {:induction false} CountersCountWrites<D>(states: seq<System<D>>, actions: seq<Action<D>>, i: nat)
    requires Execution(states, actions) && i < |states|
    ensures states[i].publishes == Writes(states, actions, i, true)
    ensures states[i].withdrawals == Writes(states, actions, i, false)
  {
    hide Next;
    if i > 0 {
      CountersCountWrites(states, actions, i - 1);
      assert Next(states[i - 1], states[i], actions[i - 1]);
      StepCounts(states[i - 1], states[i], actions[i - 1]);
    }
  }

  lemma StepCounts<D>(s: System<D>, s': System<D>, a: Action<D>)
    requires Next(s, s', a)
    ensures s'.publishes
         == if a.RestartService? then 0 else s.publishes + if a.Write? && HasPrices(s'.record) then 1 else 0
    ensures s'.withdrawals
         == if a.RestartService? then 0 else s.withdrawals + if a.Write? && !HasPrices(s'.record) then 1 else 0
  {
    hide PodReceives, Answer, Publish, Withdraw;
  }

  /** No update is lost: the sequence number counts this run's publishes and withdrawals. */
  lemma NoUpdateLost<D>(states: seq<System<D>>, actions: seq<Action<D>>, i: nat)
    requires Execution(states, actions) && i < |states|
    ensures var s := states[i];
            && |s.runs| > 0
            && s.record.seqNo == Writes(states, actions, i, true) + Writes(states, actions, i, false)
            && Consistent(s.RunId(), s.record)
  {
    hide Execution, Writes;
    StartsIdle(states, actions);
    AlwaysInv(states, actions, i);
    CountersCountWrites(states, actions, i);
  }

  /** A restart begins a new run with an empty record and lets the pods keep what they have. */
  lemma RestartStartsOver<D>(states: seq<System<D>>, actions: seq<Action<D>>, i: nat)
    requires Execution(states, actions) && i < |actions| && actions[i].RestartService?
    ensures var s, s' := states[i], states[i + 1];
            && s'.runs == s.runs + [actions[i].runId] && actions[i].runId !in s.runs
            && s'.record == Record(0, None, AwaitingSnapshot(actions[i].now)) && s'.control == Starting
            && s'.pods == s.pods
  {
    hide Execution;
    StartsIdle(states, actions);
    StepOf(states, actions, i);
  }

  /** `r` is what the action that read the record in `s` made of it. */
  ghost predicate MadeFrom<D>(s: System<D>, a: Action<D>, r: Record<D>)
    requires |s.runs| > 0
  {
    match a
    case ReadPublish(prices, at) =>
      && r.encoded == Some(Message(1, s.RunId(), s.record.seqNo + 1, Snapshot(at, prices)))
      && r.state == Serving(at)
    case ReadStale => IsWithdrawalOf(s, r)
    case ReadEnd(_) => IsWithdrawalOf(s, r)
    case _ => false
  }

  ghost predicate IsWithdrawalOf<D>(s: System<D>, r: Record<D>)
    requires |s.runs| > 0
  {
    && !s.record.state.Withdrawn?
    && r.encoded == Some(Message(1, s.RunId(), s.record.seqNo + 1, NoPrices))
    && r.state == Withdrawn(NewestAsOf(s.record.state))
  }

  /**
   A write replaces the very record its read saw, though it read it under another lock: from the read
   to the write the record and the run stay the same, and the record written is the one made from it.
   */
  lemma WriteFollowsRead<D>(states: seq<System<D>>, actions: seq<Action<D>>, i: nat) returns (j: nat)
    requires Execution(states, actions) && i < |actions| && actions[i].Write?
    ensures j < i && |states[j].runs| > 0 && MadeFrom(states[j], actions[j], states[i + 1].record)
    ensures forall k | j <= k <= i :: states[k].record == states[j].record && states[k].runs == states[j].runs
    ensures states[i + 1].record.seqNo == states[j].record.seqNo + 1
  {
    AlwaysInv(states, actions, i);
    assert Next(states[i], states[i + 1], actions[i]);
    j := ReadBeforeWrite(states, actions, i);
  }

  lemma {:induction false} ReadBeforeWrite<D>(states: seq<System<D>>, actions: seq<Action<D>>, i: nat) returns (j: nat)
    requires Execution(states, actions) && i < |states| && states[i].control.Writing?
    ensures j < i && |states[j].runs| > 0 && MadeFrom(states[j], actions[j], states[i].control.record)
    ensures forall k | j <= k <= i :: states[k].record == states[j].record && states[k].runs == states[j].runs
  {
    hide Execution, Consistent, PodInv, PodReceives, Answer;
    StartsIdle(states, actions);
    j := i - 1;
    StepOf(states, actions, j);
    AlwaysInv(states, actions, j);
    if PodStep(states[j], states[i], actions[j]) {
      j := ReadBeforeWrite(states, actions, i - 1);
    }
  }

  lemma StartsIdle<D>(states: seq<System<D>>, actions: seq<Action<D>>)
    requires Execution(states, actions)
    ensures |states| == |actions| + 1 && states[0].control == Starting
  {}

  lemma StepOf<D>(states: seq<System<D>>, actions: seq<Action<D>>, i: nat)
    requires Execution(states, actions) && i < |actions|
    ensures Next(states[i], states[i + 1], actions[i])
  {}

  /**
   Whenever the stream serves prices, they are the very prices of one publish with the time it came,
   and nothing was written since.
   */
  lemma {:induction false} ServesWhatWasPublished<D>(states: seq<System<D>>, actions: seq<Action<D>>, i: nat)
    returns (j: nat, k: nat)
    requires Execution(states, actions) && i < |states| && HasPrices(states[i].record)
    ensures j < k < i && actions[j].ReadPublish? && actions[k].Write?
    ensures states[i].record.encoded.Some?
    ensures states[i].record.encoded.value.body == Snapshot(actions[j].at, actions[j].prices)
    ensures forall l | k < l <= i :: states[l].record == states[i].record && states[l].runs == states[i].runs
  {
    hide Execution, Inv, MadeFrom;
    StartsIdle(states, actions);
    AlwaysInv(states, actions, i);
    NoPricesAtFirst(states, actions);
    StepOf(states, actions, i - 1);
    if actions[i - 1].Write? {
      j := WriteFollowsRead(states, actions, i - 1);
      k := i - 1;
      PricesFromPublish(states[j], actions[j], states[i].record);
    } else {
      RecordKept(states[i - 1], states[i], actions[i - 1]);
      j, k := ServesWhatWasPublished(states, actions, i - 1);
    }
  }

  lemma NoPricesAtFirst<D>(states: seq<System<D>>, actions: seq<Action<D>>)
    requires Execution(states, actions)
    ensures !HasPrices(states[0].record)
  {}

  lemma PricesFromPublish<D>(s: System<D>, a: Action<D>, r: Record<D>)
    requires |s.runs| > 0 && MadeFrom(s, a, r) && HasPrices(r)
    ensures a.ReadPublish? && r.encoded.Some? && r.encoded.value.body == Snapshot(a.at, a.prices)
  {}

  /** Only a write or a restart changes the record, and a restarted stream has no prices. */
  lemma RecordKept<D>(s: System<D>, s': System<D>, a: Action<D>)
    requires Next(s, s', a) && !a.Write? && HasPrices(s'.record)
    ensures s'.record == s.record && s'.runs == s.runs
  {}

  /** Within one run any reader sees sequence numbers that never go down. */
  lemma {:induction false} SeqNeverGoesDown<D>(states: seq<System<D>>, actions: seq<Action<D>>, i: nat, j: nat)
    requires Execution(states, actions) && i <= j < |states|
    ensures states[i].runs <= states[j].runs
    ensures states[i].runs == states[j].runs ==> states[i].record.seqNo <= states[j].record.seqNo
  {
    hide Execution;
    if i < j {
      SeqNeverGoesDown(states, actions, i, j - 1);
      StepNeverGoesDown(states, actions, j - 1);
      PrefixChain(states[i].runs, states[j - 1].runs, states[j].runs);
    }
  }

  lemma PrefixChain(a: seq<nat>, b: seq<nat>, c: seq<nat>)
    requires a <= b <= c
    ensures a <= c && (a == c ==> a == b)
  {
    if a == c {
      assert |a| == |b|;
    }
  }

  lemma StepNeverGoesDown<D>(states: seq<System<D>>, actions: seq<Action<D>>, i: nat)
    requires Execution(states, actions) && i + 1 < |states|
    ensures states[i].runs <= states[i + 1].runs
    ensures states[i].runs == states[i + 1].runs ==> states[i].record.seqNo <= states[i + 1].record.seqNo
  {
    AlwaysInv(states, actions, i);
    assert Next(states[i], states[i + 1], actions[i]);
    hide Execution, Consistent, PodInv, PodReceives, Answer;
    if actions[i].RestartService? {
      assert |states[i + 1].runs| == |states[i].runs| + 1;
    }
  }

  /** A pod never applies a message twice nor goes back to an older one, also across restarts. */
  lemma PodNeverGoesBack<D>(states: seq<System<D>>, actions: seq<Action<D>>, i: nat, p: nat, j: nat, k: nat)
    requires Execution(states, actions) && i < |states| && p in states[i].pods
    requires j < k < |states[i].pods[p].applied|
    ensures Before(states[i].runs, states[i].pods[p].applied[j], states[i].pods[p].applied[k])
    ensures states[i].pods[p].applied[j] != states[i].pods[p].applied[k]
  {
    AlwaysInv(states, actions, i);
    assert PodInv(states[i].runs, states[i].issued, states[i].pods[p]);
  }

  /**
   What a pod makes of an answer. It applies a message exactly when it can read it, it was written after
   every message it applied, and it is a withdrawal or a usable snapshot. It takes over the tag unless
   it could not read the message, or got no books from a new snapshot that was fresh enough.
   */
  lemma PodAppliesNewer<D>(states: seq<System<D>>, actions: seq<Action<D>>, i: nat)
    requires Execution(states, actions) && i < |actions| && actions[i].Receive?
    ensures var s, p, reading := states[i], actions[i].pod, actions[i].reading;
            && p in s.pods && p in states[i + 1].pods && s.pods[p].exchange.Answered?
            && var pod, after, r := s.pods[p], states[i + 1].pods[p], s.pods[p].exchange.response;
               if !r.Ok200? then after == pod.(exchange := Idle)
               else
                 var id := Id(r.message.runId, r.message.seqNo);
                 var newer := forall k | 0 <= k < |pod.applied| :: Before(s.runs, pod.applied[k], id);
                 var applies := reading != Undecodable && newer && (r.message.body.NoPrices? || reading == Usable);
                 var tagged := reading != Undecodable
                               && !(newer && r.message.body.Snapshot? && reading == Unassembled);
                 && after.exchange == Idle
                 && after.applied == (if applies then pod.applied + [id] else pod.applied)
                 && after.lastApplied == (if applies then Some(id) else pod.lastApplied)
                 && after.etag == (if tagged then Some(r.etag) else pod.etag)
                 && after.stored == (if tagged then Some(r.message) else pod.stored)
  {
    hide Execution, RunIndex, StreamInv, RunnerInv, Issued;
    StartsIdle(states, actions);
    StepOf(states, actions, i);
    AlwaysInv(states, actions, i);
    var s, p := states[i], actions[i].pod;
    assert PodInv(s.runs, s.issued, s.pods[p]);
    if s.pods[p].exchange.response.Ok200? {
      NewerIffNoReplay(states, actions, i);
    }
  }

  lemma NewerIffNoReplay<D>(states: seq<System<D>>, actions: seq<Action<D>>, i: nat)
    requires Execution(states, actions) && i < |actions| && actions[i].Receive?
    requires var s, p := states[i], actions[i].pod;
             p in s.pods && s.pods[p].exchange.Answered? && s.pods[p].exchange.response.Ok200?
    ensures var s, pod := states[i], states[i].pods[actions[i].pod];
            var id := Id(pod.exchange.response.message.runId, pod.exchange.response.message.seqNo);
            !IsReplay(pod.lastApplied, id) <==> forall k | 0 <= k < |pod.applied| :: Before(s.runs, pod.applied[k], id)
  {
    hide Execution, IssuedInv, RunnerInv, Issued;
    StartsIdle(states, actions);
    AlwaysInv(states, actions, i);
    var s, pod := states[i], states[i].pods[actions[i].pod];
    assert PodInv(s.runs, s.issued, pod);
    var id := Id(pod.exchange.response.message.runId, pod.exchange.response.message.seqNo);
    if IsReplay(pod.lastApplied, id) {
      assert !Before(s.runs, pod.applied[|pod.applied| - 1], id);
    } else {
      ApplyKeepsOrder(s.runs, pod, id);
    }
  }

  /**
   The stream has no prices while no feed runs: before the first start, after a failed start, in the
   backoff and after the runner stopped. While a feed runs it has them exactly after a publish.
   */
  lemma PricesOnlyFromRunningFeed<D>(states: seq<System<D>>, actions: seq<Action<D>>, i: nat)
    requires Execution(states, actions) && i < |states|
    ensures var s := states[i];
            && (s.control == Starting || s.control == Backoff || s.control == Stopped ==> !HasPrices(s.record))
            && (s.control == Following ==> (HasPrices(s.record) <==> s.last == LastPublished))
  {
    AlwaysInv(states, actions, i);
  }

  ghost predicate EndsRunner<D>(a: Action<D>) {
    || (a.FailStart? && (a.error == Fatal || a.error == InvalidInput))
    || (a.ReadEnd? && a.outcome.Failed? && (a.outcome.error == Fatal || a.outcome.error == InvalidInput))
  }

  /** The runner has stopped only because a start or a feed of this run failed with a fatal or invalid-input error. */
  lemma {:induction false} StoppedOnlyForGood<D>(states: seq<System<D>>, actions: seq<Action<D>>, i: nat)
    returns (j: nat)
    requires Execution(states, actions) && i < |states|
    requires states[i].control == Stopped || (states[i].control.Writing? && states[i].control.next == Stopped)
    ensures j < i && EndsRunner(actions[j]) && states[j].runs == states[i].runs
    decreases i
  {
    hide Next, Inv;
    assert Init(states[0]);
    assert Next(states[i - 1], states[i], actions[i - 1]);
    AlwaysInv(states, actions, i - 1);
    var before := states[i - 1].control;
    StopStep(states[i - 1], states[i], actions[i - 1]);
    j := i - 1;
    if before == Stopped || (before.Writing? && before.next == Stopped) {
      j := StoppedOnlyForGood(states, actions, i - 1);
    }
  }

  lemma StopStep<D>(s: System<D>, s': System<D>, a: Action<D>)
    requires Inv(s) && Next(s, s', a)
    requires s'.control == Stopped || (s'.control.Writing? && s'.control.next == Stopped)
    ensures s.control == Stopped || (s.control.Writing? && s.control.next == Stopped) || EndsRunner(a)
    ensures s.runs == s'.runs
  {}

  /** The runner is in `next`, or will be once it has written. */
  ghost predicate HeadsFor<D>(control: Control<D>, next: Control<D>) {
    control == next || (control.Writing? && control.next == next)
  }

  /**
   A fatal or invalid-input error stops the runner; every other end or failed start sends it to the
   backoff, and from there to a new start.
   */
  lemma EndDecides<D>(states: seq<System<D>>, actions: seq<Action<D>>, i: nat)
    requires Execution(states, actions) && i < |actions|
    ensures actions[i].FailStart? || actions[i].ReadEnd? ==>
              HeadsFor(states[i + 1].control, if EndsRunner(actions[i]) then Stopped else Backoff)
    ensures actions[i].WakeUp? ==> states[i].control == Backoff && states[i + 1].control == Starting
  {
    hide Execution, Inv, Withdrawal;
    StartsIdle(states, actions);
    StepOf(states, actions, i);
  }

  /** A feed runs only because it was started: no other step leads to following one. */
  lemma FollowsOnlyStartedFeed<D>(states: seq<System<D>>, actions: seq<Action<D>>, i: nat)
    requires Execution(states, actions) && i < |actions|
    requires HeadsFor(states[i + 1].control, Following) && !HeadsFor(states[i].control, Following)
    ensures actions[i].StartFeed? && states[i].control == Starting
  {
    hide Execution, Consistent, PodInv, IssuedInv;
    StartsIdle(states, actions);
    StepOf(states, actions, i);
    AlwaysInv(states, actions, i);
  }
}
