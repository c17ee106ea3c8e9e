/**
 * `Branches`, `RemoteBranches`, `BranchExist` and `RemoteBranchExist`:
 * listings split into lines and scanned for an exact match.
 */
module BranchList {
  import opened Wrappers
  import opened Exec
  import opened Lines

  /** A branch listing and the error of the command that produced it. */
  datatype Listing = Listing(names: seq<string>, err: Option<CmdError>)

  const BranchArgs: seq<string> := ["branch"]
  const RemoteBranchArgs: seq<string> := ["branch", "-r"]

  /** The listing shape shared by git.go:100-104 and git.go:110-114: an error or an
      empty output gives no names; otherwise every line is a name. */
  function ListingOf(out: Captured): (l: Listing)
    ensures l.err == out.err
    ensures out.err.Some? || out.text == "" ==> l.names == []
    ensures out.err.None? && out.text != "" ==>
              |l.names| >= 1 && SepFree(l.names, '\n') && Join(l.names, '\n') == out.text
  {
    if out.err.Some? || out.text == "" then Listing([], out.err)
    else Listing(Split(out.text, '\n'), None)
  }

  /** Names listed from a successful, non-empty output are the unique
      newline-free fields that join back to it. */
  lemma ListingUnique(out: Captured, names: seq<string>)
    requires out.err.None? && out.text != ""
    requires |names| >= 1 && SepFree(names, '\n') && Join(names, '\n') == out.text
    ensures ListingOf(out).names == names
  {
    SplitJoin(names, '\n');
  }

  /** `Branches()`: the lines of `git branch`. */
  function Branches(git: Git): (l: Listing)
    ensures l.err == git(BranchArgs).err
    ensures git(BranchArgs).err.Some? || git(BranchArgs).text == "" ==> l.names == []
    ensures git(BranchArgs).err.None? && git(BranchArgs).text != "" ==>
              |l.names| >= 1 && SepFree(l.names, '\n') && Join(l.names, '\n') == git(BranchArgs).text
  {
    ListingOf(git(BranchArgs))
  }

  /** `RemoteBranches()`: the lines of `git branch -r`. */
  function RemoteBranches(git: Git): (l: Listing)
    ensures l.err == git(RemoteBranchArgs).err
    ensures git(RemoteBranchArgs).err.Some? || git(RemoteBranchArgs).text == "" ==> l.names == []
    ensures git(RemoteBranchArgs).err.None? && git(RemoteBranchArgs).text != "" ==>
              |l.names| >= 1 && SepFree(l.names, '\n') && Join(l.names, '\n') == git(RemoteBranchArgs).text
  {
    ListingOf(git(RemoteBranchArgs))
  }

  /** The `for range` scan with an early return on the first equal line. */
  method Scan(lines: seq<string>, name: string) returns (found: bool)
    ensures found <==> name in lines
  {
    var i := 0;
    while i < |lines|
      invariant 0 <= i <= |lines|
      invariant forall j :: 0 <= j < i ==> lines[j] != name
    {
      if lines[i] == name {
        return true;
      }
      i := i + 1;
    }
    return false;
  }

  /** `BranchExist(name)`: true exactly when some line of a successful
      `git branch` equals the name; a failed listing gives false and its error. */
  method BranchExist(name: string, git: Git) returns (found: bool, err: Option<CmdError>)
    ensures err == git(BranchArgs).err
    ensures err.Some? ==> !found
    ensures found <==>
              err.None? && git(BranchArgs).text != "" && name in Split(git(BranchArgs).text, '\n')
  {
    var l := Branches(git);
    if l.err.Some? {
      return false, l.err;
    }
    found := Scan(l.names, name);
    err := None;
  }

  /** `RemoteBranchExist(name)`: the same scan over `git branch -r`. */
  method RemoteBranchExist(name: string, git: Git) returns (found: bool, err: Option<CmdError>)
    ensures err == git(RemoteBranchArgs).err
    ensures err.Some? ==> !found
    ensures found <==>
              err.None? && git(RemoteBranchArgs).text != "" &&
              name in Split(git(RemoteBranchArgs).text, '\n')
  {
    var l := RemoteBranches(git);
    if l.err.Some? {
      return false, l.err;
    }
    found := Scan(l.names, name);
    err := None;
  }

  /** Lines are compared whole: a newline-terminated listing always holds
      the empty name as its final line. */
  lemma TrailingNewlineListsEmptyName(git: Git)
    requires git(BranchArgs).err.None?
    requires |git(BranchArgs).text| > 0 && git(BranchArgs).text[|git(BranchArgs).text| - 1] == '\n'
    ensures "" in Branches(git).names
    ensures Branches(git).names[|Branches(git).names| - 1] == ""
  {
    var t := git(BranchArgs).text;
    var s := t[..|t| - 1];
    assert t == s + ['\n'];
    SplitTrailingSep(s, '\n');
  }
}
