/** The status machine of a data export: an exporter starts IDLE, runs,
    and ends COMPLETED, FAILED or CANCELLED; progress updates and log
    messages are only taken while it runs. What the listener hears is kept
    as the sequence of notices it received. The download itself is outside
    the model. */
module DataExporter {
  import opened Wrappers

  /** `DataExportStatus`. */
  datatype Status = Idle | Running | Completed | Failed | Cancelled

  /** A call the exporter made on its listener. */
  datatype Notice =
    | StatusChange(status: Status)
    | ProgressUpdate(step: int, total: int, statusMessage: Option<string>)
    | LogNotice(time: int, message: string)

  /** `DataExportLogMessage`. */
  datatype LogMessage = LogMessage(time: int, message: string)

  /** The fields of an exporter; `threadStarted` and `clientClosed` record
      the side effects of starting and cancelling. */
  datatype ExportState = ExportState(
    status: Status, step: int, total: int, statusMessage: Option<string>,
    logMessages: seq<LogMessage>, error: Option<string>, hasListener: bool,
    notices: seq<Notice>, threadStarted: bool, clientClosed: bool)

  function Initial(hasListener: bool): ExportState {
    ExportState(Idle, 0, 0, None, [], None, hasListener, [], false, false)
  }

  /** An operation on the exporter: the public calls and the two ends of
      the export thread. */
  datatype Op =
    | Start
    | Cancel
    | SetError(error: string)
    | Complete
    | Update(step: int, total: int, statusMessage: Option<string>)
    | Log(time: int, message: string)

  /** The notices of a listener, if there is one. */
  function Notify(st: ExportState, n: Notice): seq<Notice> {
    if st.hasListener then st.notices + [n] else st.notices
  }

  /** What one operation does: `start` only from IDLE; `cancel` only from
      IDLE or RUNNING; an error and completion only while RUNNING, each
      notifying the listener; updates and log messages only while RUNNING. */
  function StepOf(st: ExportState, op: Op): ExportState {
    match op
    case Start =>
      if st.status != Idle then st else st.(status := Running, threadStarted := true)
    case Cancel =>
      if st.status != Idle && st.status != Running then st
      else st.(status := Cancelled, clientClosed := true)
    case SetError(e) =>
      if st.status != Running then st
      else st.(status := Failed, error := Some(e), notices := Notify(st, StatusChange(Failed)))
    case Complete =>
      if st.status != Running then st
      else st.(status := Completed, notices := Notify(st, StatusChange(Completed)))
    case Update(step, total, msg) =>
      if st.status != Running then st
      else st.(step := step, total := total, statusMessage := msg,
               notices := Notify(st, ProgressUpdate(step, total, msg)))
    case Log(time, message) =>
      if st.status != Running then st
      else st.(logMessages := st.logMessages + [LogMessage(time, message)],
               notices := Notify(st, LogNotice(time, message)))
  }

  /** The order of the statuses: IDLE, then RUNNING, then the ends. */
  function Rank(s: Status): nat {
    match s
    case Idle => 0
    case Running => 1
    case _ => 2
  }

  predicate Terminal(s: Status) {
    s == Completed || s == Failed || s == Cancelled
  }

  /** The status never goes back; an ended exporter is never changed; only a
      running exporter fails or completes; only an idle one starts. */
  lemma StepMonotone(st: ExportState, op: Op)
    ensures Rank(StepOf(st, op).status) >= Rank(st.status)
    ensures Terminal(st.status) ==> StepOf(st, op) == st
    ensures StepOf(st, op).status == Failed && st.status != Failed ==> st.status == Running && op.SetError?
    ensures StepOf(st, op).status == Completed && st.status != Completed ==> st.status == Running && op.Complete?
    ensures StepOf(st, op).status == Running && st.status != Running ==> st.status == Idle && op.Start?
  {
  }

  /** The listener hears of a status only when the status actually changes
      to FAILED or COMPLETED, and then exactly once. */
  lemma StatusNoticeOnTransition(st: ExportState, op: Op)
    requires st.hasListener
    ensures var st' := StepOf(st, op);
            (exists s :: st'.notices == st.notices + [StatusChange(s)]) <==>
              st'.status != st.status && (st'.status == Failed || st'.status == Completed)
  {
    var st' := StepOf(st, op);
    if st'.status != st.status && (st'.status == Failed || st'.status == Completed) {
      assert st'.notices == st.notices + [StatusChange(st'.status)];
    } else {
      assert forall s :: st'.notices != st.notices + [StatusChange(s)] by {
        assert st'.notices == st.notices || (|st'.notices| == |st.notices| + 1 && !st'.notices[|st.notices|].StatusChange?);
      }
    }
  }

  /** The state every exporter keeps: an error exactly when FAILED, nothing
      recorded before the start, and a thread exactly once it left IDLE
      by starting. */
  predicate Valid(st: ExportState) {
    && (st.status == Failed <==> st.error.Some?)
    && (st.status == Idle ==> st.logMessages == [] && st.notices == [] && st.step == 0 && st.total == 0 &&
                              !st.threadStarted && !st.clientClosed)
    && (st.status == Running ==> st.threadStarted && !st.clientClosed)
    && (st.status == Completed || st.status == Failed ==> st.threadStarted && !st.clientClosed)
    && (st.status == Cancelled ==> st.clientClosed)
  }

  lemma StepValid(st: ExportState, op: Op)
    requires Valid(st)
    ensures Valid(StepOf(st, op))
  {
  }

  /** The operations applied one after the other. */
  function Run(st: ExportState, ops: seq<Op>): ExportState
    decreases |ops|
  {
    if |ops| == 0 then st else Run(StepOf(st, ops[0]), ops[1..])
  }

  /** Every run from a fresh exporter keeps the invariant, and its status
      never returns to an earlier one. */
  lemma {:induction false} RunValid(st: ExportState, ops: seq<Op>)
    requires Valid(st)
    ensures Valid(Run(st, ops))
    ensures Rank(Run(st, ops).status) >= Rank(st.status)
    ensures Terminal(st.status) ==> Run(st, ops) == st
    decreases |ops|
  {
    if |ops| > 0 {
      StepValid(st, ops[0]);
      StepMonotone(st, ops[0]);
      RunValid(StepOf(st, ops[0]), ops[1..]);
    }
  }

  ghost predicate IsPrefix<T>(a: seq<T>, b: seq<T>) {
    |a| <= |b| && b[..|a|] == a
  }

  lemma PrefixTransitive<T>(a: seq<T>, b: seq<T>, c: seq<T>)
    requires IsPrefix(a, b) && IsPrefix(b, c)
    ensures IsPrefix(a, c)
  {
    assert c[..|a|] == c[..|b|][..|a|];
  }

  /** One operation only appends notices and log messages. */
  lemma StepAppends(st: ExportState, op: Op)
    ensures IsPrefix(st.notices, StepOf(st, op).notices)
    ensures IsPrefix(st.logMessages, StepOf(st, op).logMessages)
  {
    var next := StepOf(st, op);
    assert next.notices[..|st.notices|] == st.notices;
    assert next.logMessages[..|st.logMessages|] == st.logMessages;
  }

  /** Notices and log messages are only ever appended. */
  lemma {:induction false} RunAppends(st: ExportState, ops: seq<Op>)
    ensures IsPrefix(st.notices, Run(st, ops).notices)
    ensures IsPrefix(st.logMessages, Run(st, ops).logMessages)
    decreases |ops|
  {
    if |ops| == 0 {
      assert st.notices[..|st.notices|] == st.notices;
      assert st.logMessages[..|st.logMessages|] == st.logMessages;
    } else {
      var next := StepOf(st, ops[0]);
      StepAppends(st, ops[0]);
      RunAppends(next, ops[1..]);
      PrefixTransitive(st.notices, next.notices, Run(st, ops).notices);
      PrefixTransitive(st.logMessages, next.logMessages, Run(st, ops).logMessages);
    }
  }

  /** `DataExporter` with its mutable fields. */
  class Exporter {
    var status: Status
    var step: int
    var total: int
    var statusMessage: Option<string>
    var logMessages: seq<LogMessage>
    var error: Option<string>
    const hasListener: bool
    var notices: seq<Notice>
    var threadStarted: bool
    var clientClosed: bool

    function State(): ExportState
      reads this
    {
      ExportState(status, step, total, statusMessage, logMessages, error, hasListener, notices,
                  threadStarted, clientClosed)
    }

    constructor (hasListener: bool)
      ensures State() == Initial(hasListener)
    {
      status := Idle;
      step := 0;
      total := 0;
      statusMessage := None;
      logMessages := [];
      error := None;
      this.hasListener := hasListener;
      notices := [];
      threadStarted := false;
      clientClosed := false;
    }

    method StartExport()
      modifies this
      ensures State() == StepOf(old(State()), Start)
    {
      if status != Idle {
        return;
      }
      status := Running;
      threadStarted := true;
    }

    method CancelExport()
      modifies this
      ensures State() == StepOf(old(State()), Cancel)
    {
      if status != Idle && status != Running {
        return;
      }
      status := Cancelled;
      clientClosed := true;
    }

    /** `setError`, called when the export thread throws. */
    method SetExportError(e: string)
      modifies this
      ensures State() == StepOf(old(State()), SetError(e))
    {
      if status != Running {
        return;
      }
      status := Failed;
      error := Some(e);
      if hasListener {
        notices := notices + [StatusChange(status)];
      }
    }

    /** The end of `tryRunThread` after the data was read. */
    method CompleteExport()
      modifies this
      ensures State() == StepOf(old(State()), Complete)
    {
      if status != Running {
        return;
      }
      status := Completed;
      if hasListener {
        notices := notices + [StatusChange(status)];
      }
    }

    method UpdateProgress(step: int, total: int, statusMessage: Option<string>)
      modifies this
      ensures State() == StepOf(old(State()), Update(step, total, statusMessage))
    {
      if status != Running {
        return;
      }
      this.step := step;
      this.total := total;
      this.statusMessage := statusMessage;
      if hasListener {
        notices := notices + [ProgressUpdate(step, total, statusMessage)];
      }
    }

    method LogMessageAt(time: int, message: string)
      modifies this
      ensures State() == StepOf(old(State()), Log(time, message))
    {
      if status != Running {
        return;
      }
      logMessages := logMessages + [LogMessage(time, message)];
      if hasListener {
        notices := notices + [LogNotice(time, message)];
      }
    }
  }
}
