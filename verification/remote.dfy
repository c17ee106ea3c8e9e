/**
 * `RemoteStatus`: where the current branch stands against a remote branch.
 *
 * Three revisions are looked up in turn (local HEAD, the remote branch, their
 * merge base); the first failed lookup ends the operation with its error.
 * The captured outputs are then compared exactly as returned, first match wins.
 */
module Remote {
  import opened Wrappers
  import opened Exec

  /** The four outcomes of the comparison. */
  datatype Divergence = Equal | LocalBehind | LocalAhead | Diverged

  /** The string `RemoteStatus` returns for each outcome. */
  function Display(d: Divergence): (s: string)
    ensures s != ""
    ensures FromDisplay(s) == Some(d)
  {
    match d
    case Equal => "="
    case LocalBehind => "-1"
    case LocalAhead => "+1"
    case Diverged => "-1+1"
  }

  /** The outcome a returned string stands for, if any. */
  function FromDisplay(s: string): Option<Divergence>
  {
    if s == "=" then Some(Equal)
    else if s == "-1" then Some(LocalBehind)
    else if s == "+1" then Some(LocalAhead)
    else if s == "-1+1" then Some(Diverged)
    else None
  }

  /** The display strings are distinct and non-empty: each returned string
      names exactly one outcome, and none is the "" of a failed lookup. */
  lemma DisplayExact(s: string, d: Divergence)
    ensures FromDisplay(s) == Some(d) <==> Display(d) == s
    ensures Display(d) != ""
  {
  }

  /** git.go:164-173. The outcome is `Equal` exactly when the two tips agree,
      whatever the base; the order of the second and third tests does not
      matter, since both cannot hold once the tips differ. */
  function Compare(local: string, remote: string, base: string): (d: Divergence)
    ensures d == Equal <==> local == remote
    ensures d == LocalBehind <==> local != remote && local == base
    ensures d == LocalAhead <==> local != remote && remote == base
    ensures d == Diverged <==> local != base && remote != base && local != remote
  {
    if local == remote then Equal
    else if local == base then LocalBehind
    else if remote == base then LocalAhead
    else Diverged
  }

  /** Behind and ahead trade places when local and remote are swapped. */
  function Mirror(d: Divergence): Divergence
  {
    match d
    case LocalBehind => LocalAhead
    case LocalAhead => LocalBehind
    case _ => d
  }

  /** Swapping the two tips mirrors the outcome. */
  lemma CompareSwap(local: string, remote: string, base: string)
    ensures Compare(remote, local, base) == Mirror(Compare(local, remote, base))
  {
  }

  /** The lookups, in the order they are issued. */
  function Lookups(remote: string): seq<seq<string>>
  {
    [["rev-parse", "@{0}"], ["rev-parse", remote], ["merge-base", "@{0}", remote]]
  }

  /** The result of `RemoteStatus` and the git commands it issued. */
  datatype Report = Report(status: string, err: Option<CmdError>, issued: seq<seq<string>>)

  /** `RemoteStatus(remote)`. */
  function RemoteStatus(remote: string, git: Git): (r: Report)
    ensures 1 <= |r.issued| <= 3 && r.issued == Lookups(remote)[..|r.issued|]
    ensures forall i :: 0 <= i < |r.issued| - 1 ==> git(r.issued[i]).err.None?
    ensures r.err == git(r.issued[|r.issued| - 1]).err
    ensures r.err.Some? <==> r.status == ""
    ensures r.err.None? ==>
              |r.issued| == 3 &&
              FromDisplay(r.status) ==
                Some(Compare(git(Lookups(remote)[0]).text, git(Lookups(remote)[1]).text,
                             git(Lookups(remote)[2]).text))
  {
    var plan := Lookups(remote);
    var local := git(plan[0]);
    if local.err.Some? then Report("", local.err, plan[..1])
    else
      var rem := git(plan[1]);
      if rem.err.Some? then Report("", rem.err, plan[..2])
      else
        var base := git(plan[2]);
        if base.err.Some? then Report("", base.err, plan)
        else
          var d := Compare(local.text, rem.text, base.text);
          DisplayExact(Display(d), d);
          Report(Display(d), None, plan)
  }

  /** A failed lookup is final: whatever later lookups would return, the
      result is the same error and they are not issued. */
  lemma FailureShortCircuits(remote: string, git: Git, git': Git, k: nat)
    requires k < 3
    requires forall i :: 0 <= i <= k ==> git(Lookups(remote)[i]) == git'(Lookups(remote)[i])
    requires git(Lookups(remote)[k]).err.Some?
    ensures RemoteStatus(remote, git) == RemoteStatus(remote, git')
    ensures |RemoteStatus(remote, git).issued| <= k + 1
    ensures RemoteStatus(remote, git).status == ""
  {
    var plan := Lookups(remote);
    assert git(plan[0]) == git'(plan[0]);
    if k >= 1 { assert git(plan[1]) == git'(plan[1]); }
    if k >= 2 { assert git(plan[2]) == git'(plan[2]); }
  }
}
