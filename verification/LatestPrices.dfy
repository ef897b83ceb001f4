/**
 The latest message of one price stream. A message stands for its own JSON text, which determines it.
 */
module LatestPrices {
  import opened Wrappers

  /** A point in time. */
  type Time = int

  const PROTOCOL_VERSION: nat := 1

  datatype Body<+D> = Snapshot(asOf: Time, data: D) | NoPrices

  datatype Message<+D> = Message(version: nat, runId: nat, seqNo: nat, body: Body<D>)

  datatype StreamState =
    | AwaitingSnapshot(startedAt: Time)
    | Serving(asOf: Time)
    | Withdrawn(lastAsOf: Time)

  /** The sequence number, message and state that one lock guards. */
  datatype Record<+D> = Record(seqNo: nat, encoded: Option<Message<D>>, state: StreamState)

  function FreshRecord<D>(startedAt: Time): Record<D> {
    Record(0, None, AwaitingSnapshot(startedAt))
  }

  /** The record a publish writes over the record it read. */
  function Publish<D>(runId: nat, read: Record<D>, prices: D, asOf: Time): (written: Record<D>)
    ensures written.seqNo == read.seqNo + 1 && written.state == Serving(asOf)
    ensures written.encoded.Some? && written.encoded.value.body == Snapshot(asOf, prices)
  {
    var seqNo := read.seqNo + 1;
    Record(seqNo, Some(Message(PROTOCOL_VERSION, runId, seqNo, Snapshot(asOf, prices))), Serving(asOf))
  }

  /** The record a withdrawal writes over the record it read; none if that is a withdrawal already. */
  function Withdraw<D>(runId: nat, read: Record<D>): Option<Record<D>> {
    match read.state
    case Withdrawn(_) => None
    case AwaitingSnapshot(time) => Some(Withdrawal(runId, read.seqNo + 1, time))
    case Serving(time) => Some(Withdrawal(runId, read.seqNo + 1, time))
  }

  function Withdrawal<D>(runId: nat, seqNo: nat, time: Time): Record<D> {
    Record(seqNo, Some(Message(PROTOCOL_VERSION, runId, seqNo, NoPrices)), Withdrawn(time))
  }

  /**
   The message carries the run and the record's sequence number and says what the state says;
   there is no message exactly while the sequence number is zero, exactly while awaiting.
   */
  ghost predicate Consistent<D>(runId: nat, record: Record<D>) {
    && (record.encoded.None? <==> record.seqNo == 0)
    && (record.encoded.None? <==> record.state.AwaitingSnapshot?)
    && (record.encoded.Some? ==>
          var m := record.encoded.value;
          && m.version == PROTOCOL_VERSION && m.runId == runId && m.seqNo == record.seqNo
          && (m.body.Snapshot? <==> record.state.Serving?)
          && (m.body.Snapshot? ==> m.body.asOf == record.state.asOf))
  }

  function HasPrices<D>(record: Record<D>): bool {
    record.state.Serving?
  }

  /** One stream of one service run; only its feed runner writes it. */
  class LatestPrices<D> {
    const runId: nat
    var latest: Record<D>

    ghost predicate Valid()
      reads this
    {
      Consistent(runId, latest)
    }

    constructor (runId: nat, now: Time)
      ensures Valid() && this.runId == runId && latest == FreshRecord(now)
      ensures latest.seqNo == 0 && latest.encoded == None && latest.state == AwaitingSnapshot(now)
    {
      this.runId := runId;
      latest := FreshRecord(now);
    }

    /** The latest message, if one was ever written in this run, consistent with the state. */
    method Current() returns (m: Option<Message<D>>)
      requires Valid()
      ensures m == latest.encoded
      ensures m.Some? ==> m.value.runId == runId && m.value.seqNo == latest.seqNo > 0
      ensures m.Some? ==> (m.value.body.Snapshot? <==> HasPrices(latest))
    {
      m := latest.encoded;
    }

    /** Replaces the message with a snapshot. */
    method PublishPrices(prices: D, asOf: Time)
      requires Valid()
      modifies this
      ensures Valid() && latest == Publish(runId, old(latest), prices, asOf)
      ensures HasPrices(latest) && latest.seqNo == old(latest).seqNo + 1 && latest.state == Serving(asOf)
      ensures latest.encoded == Some(Message(1, runId, old(latest).seqNo + 1, Snapshot(asOf, prices)))
    {
      var seqNo := latest.seqNo + 1;
      var encoded := Message(PROTOCOL_VERSION, runId, seqNo, Snapshot(asOf, prices));
      latest := Record(seqNo, Some(encoded), Serving(asOf));
    }

    /** Replaces the message with a withdrawal, unless it already is one. */
    method WithdrawPrices()
      requires Valid()
      modifies this
      ensures Valid() && latest == AfterWithdraw(runId, old(latest))
      ensures !HasPrices(latest) && latest.state.Withdrawn?
      ensures latest.seqNo == old(latest).seqNo + (if old(latest).state.Withdrawn? then 0 else 1)
      ensures latest.encoded
           == if old(latest).state.Withdrawn? then old(latest).encoded
              else Some(Message(1, runId, old(latest).seqNo + 1, NoPrices))
    {
      var lastAsOf;
      match latest.state {
        case Withdrawn(_) => return;
        case AwaitingSnapshot(time) => lastAsOf := time;
        case Serving(time) => lastAsOf := time;
      }
      var seqNo := latest.seqNo + 1;
      latest := Record(seqNo, Some(Message(PROTOCOL_VERSION, runId, seqNo, NoPrices)), Withdrawn(lastAsOf));
    }
  }

  function AfterWithdraw<D>(runId: nat, read: Record<D>): Record<D> {
    var written := Withdraw(runId, read);
    if written.Some? then written.value else read
  }

  /** The newest time the stream has held prices for, or the start of the run. */
  function NewestAsOf(state: StreamState): Time {
    match state
    case AwaitingSnapshot(time) => time
    case Serving(time) => time
    case Withdrawn(time) => time
  }

  /** A withdrawal is idempotent and never changes how old the prices are. */
  lemma WithdrawKeepsAge<D>(runId: nat, record: Record<D>)
    ensures var after := AfterWithdraw(runId, record);
            && AfterWithdraw(runId, after) == after
            && NewestAsOf(after.state) == NewestAsOf(record.state)
  {}
}
