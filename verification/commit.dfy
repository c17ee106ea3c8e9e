/**
 * `Commit`: the go/no-go gate in front of `git commit`.
 *
 * The count of tracked ready entries comes from the status record's
 * `CountTracked`, whose body is not part of this model; it is an input here.
 * So is the error of that `git status`, which `Commit` never reads.
 */
module CommitGate {
  import opened Wrappers
  import opened Exec

  /** The two errors `Commit` can return. */
  datatype CommitError = NothingToCommit | CommitFailed

  /** The text of each error. */
  function Message(e: CommitError): string
  {
    match e
    case NothingToCommit => "No files to commit. Please check"
    case CommitFailed => "Unable to commit"
  }

  /** The two errors carry different texts, so a caller holding only the
      error text can still tell them apart. */
  lemma MessagesDistinct(e: CommitError, e': CommitError)
    ensures Message(e) == Message(e') <==> e == e'
  {
  }

  function CommitArgs(msg: string): seq<string>
  {
    ["commit", "-m", msg]
  }

  /** The result of `Commit` and the commit commands it ran. */
  datatype Outcome = Outcome(ran: seq<seq<string>>, err: Option<CommitError>)

  /** `Commit(msg, errorIfEmpty)` given the error and the tracked count of
      the fresh status it takes first. */
  function Commit(msg: string, errorIfEmpty: bool, statusErr: Option<CmdError>, tracked: int, run: Do): (r: Outcome)
    ensures tracked == 0 ==> r.ran == [] && (r.err.Some? <==> errorIfEmpty)
    ensures tracked != 0 ==> r.ran == [CommitArgs(msg)] && (r.err.Some? <==> run(CommitArgs(msg)) > 0)
    ensures r.err == Some(NothingToCommit) <==> tracked == 0 && errorIfEmpty
    ensures r.err == Some(CommitFailed) <==> |r.ran| == 1 && run(r.ran[0]) > 0
  {
    if tracked == 0 then
      Outcome([], if errorIfEmpty then Some(NothingToCommit) else None)
    else if run(CommitArgs(msg)) > 0 then
      Outcome([CommitArgs(msg)], Some(CommitFailed))
    else
      Outcome([CommitArgs(msg)], None)
  }

  /** With nothing tracked, the commit command is irrelevant to the outcome. */
  lemma EmptyIgnoresCommand(msg: string, errorIfEmpty: bool, statusErr: Option<CmdError>, run: Do, run': Do)
    ensures Commit(msg, errorIfEmpty, statusErr, 0, run) == Commit(msg, errorIfEmpty, statusErr, 0, run')
  {
  }

  /** With something tracked, the strictness flag is irrelevant to the outcome. */
  lemma TrackedIgnoresStrictness(msg: string, statusErr: Option<CmdError>, tracked: int, run: Do)
    requires tracked != 0
    ensures Commit(msg, true, statusErr, tracked, run) == Commit(msg, false, statusErr, tracked, run)
  {
  }

  /** A failed `git status` is discarded: the outcome depends on the status
      only through the tracked count, so a failure never comes back as a
      command error of its own. */
  lemma StatusErrorDiscarded(msg: string, errorIfEmpty: bool, err: CmdError, tracked: int, run: Do)
    ensures Commit(msg, errorIfEmpty, Some(err), tracked, run) == Commit(msg, errorIfEmpty, None, tracked, run)
    ensures tracked == 0 ==> Commit(msg, errorIfEmpty, Some(err), tracked, run).err != Some(CommitFailed)
  {
  }
}
