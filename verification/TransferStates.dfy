/** Statuses of transfers and upload sessions, and the table of allowed changes. */
module TransferStates {
  import opened Options

  type Time = int

  datatype Status = Pending | Running | Paused | Completed | Failed | Expired | Canceled

  datatype FailureCode =
    | TransferFailed | TransferExpired | TransferStalled | UploadFailed | UploadSessionExpired
    | DownloadIntentExpired | DownloadFailed | PreviewUnsupported | PreviewTooLarge | StorageReconcileFailed

  function AllowedNext(s: Status): set<Status> {
    match s
    case Pending => {Running, Completed, Failed, Expired, Canceled}
    case Running => {Paused, Completed, Failed, Expired, Canceled}
    case Paused => {Running, Failed, Expired, Canceled}
    case Completed => {}
    case Failed => {Pending, Running, Expired, Canceled}
    case Expired => {}
    case Canceled => {}
  }

  predicate CanTransition(current: Status, next: Status) {
    current == next || next in AllowedNext(current)
  }

  function TransitionSources(next: Status): (r: set<Status>)
    ensures forall s: Status :: s in r <==> CanTransition(s, next)
  {
    set s: Status | s in {Pending, Running, Paused, Completed, Failed, Expired, Canceled} && CanTransition(s, next)
  }

  predicate IsTerminal(s: Status) {
    s == Completed || s == Expired || s == Canceled
  }

  /** A deadline that is absent or still ahead. */
  predicate Live(expiresAt: Option<Time>, now: Time) {
    expiresAt.None? || expiresAt.value > now
  }

  /** The status a reader is shown: a stored status turns into "expired" once its deadline has passed. */
  function ReportedStatus(stored: Status, expiresAt: Option<Time>, now: Time): Status {
    if !IsTerminal(stored) && !Live(expiresAt, now) then Expired else stored
  }

  /** Who may come to a status: the table of the transfers, read backwards. */
  lemma SourcesOf(next: Status)
    ensures TransitionSources(next) == {next} + (
      match next
      case Pending => {Failed}
      case Running => {Pending, Paused, Failed}
      case Paused => {Running}
      case Completed => {Pending, Running}
      case Failed => {Pending, Running, Paused}
      case Expired => {Pending, Running, Paused, Failed}
      case Canceled => {Pending, Running, Paused, Failed})
  {
  }

  /** A reader is told "expired" from the deadline on, to the millisecond, unless the end has come before. */
  lemma ReportedFromDeadline(stored: Status, expiresAt: Option<Time>, now: Time)
    ensures stored in {Completed, Expired, Canceled} ==> ReportedStatus(stored, expiresAt, now) == stored
    ensures stored !in {Completed, Expired, Canceled} ==>
      ReportedStatus(stored, expiresAt, now) == if expiresAt.Some? && expiresAt.value <= now then Expired else stored
    ensures Live(expiresAt, now) <==> expiresAt.None? || now < expiresAt.value
  {
  }

  /** A terminal status has no way out, and every other status has one to each failure ending. */
  lemma TerminalMeansNoExit(s: Status)
    ensures IsTerminal(s) <==> forall next :: CanTransition(s, next) ==> next == s
    ensures !IsTerminal(s) <==> CanTransition(s, Expired) && CanTransition(s, Canceled)
  {
    if !IsTerminal(s) {
      assert CanTransition(s, Expired);
      assert CanTransition(s, Canceled);
    }
  }
}
