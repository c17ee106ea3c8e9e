/**
 * `GetStatus`: classification of `git status --porcelain` output.
 *
 * The output is split on "\n" and every line is tested against two
 * patterns, each of which passes its (kind, path) match to `Ready.add`:
 *   ready      ^([ADM])  (.*)$   a change letter, two spaces, the path
 *   not ready  ^ ([?ADM]) (.*)$  a space, a status letter, a space, the path
 * The regular expressions are modelled as position checks. `.` does not
 * match a newline, so a matched path never contains one.
 *
 * The record is modelled as the ordered sequence of the (kind, path) pairs
 * handed to `add`; the bodies of the record's `init`, `add` and
 * `CountTracked` are not part of this model.
 */
module Status {
  import opened Wrappers
  import opened Exec
  import opened Lines

  /** The change kinds a status letter can name. */
  datatype Change = Added | Deleted | Modified | Untracked

  /** The status letter of a change kind. */
  function Letter(k: Change): char
  {
    match k
    case Added => 'A'
    case Deleted => 'D'
    case Modified => 'M'
    case Untracked => '?'
  }

  /** The change kind a character names, if any: the class `[?ADM]`. */
  function ChangeOf(c: char): (k: Option<Change>)
    ensures k.Some? ==> Letter(k.value) == c
    ensures forall ch :: Letter(ch) == c ==> k == Some(ch)
  {
    if c == 'A' then Some(Added)
    else if c == 'D' then Some(Deleted)
    else if c == 'M' then Some(Modified)
    else if c == '?' then Some(Untracked)
    else None
  }

  /** One `add(kind, path)` call. */
  datatype Entry = Entry(change: Change, path: string)

  /** Entries a ready line can carry: a tracked change and a one-line path. */
  predicate Stageable(e: Entry)
  {
    e.change != Untracked && '\n' !in e.path
  }

  /** Entries a not-ready line can carry: any kind and a one-line path. */
  predicate Listable(e: Entry)
  {
    '\n' !in e.path
  }

  /** The porcelain line of a ready entry: letter, two spaces, path. */
  function ReadyLine(e: Entry): string
  {
    [Letter(e.change), ' ', ' '] + e.path
  }

  /** The porcelain line of a not-ready entry: space, letter, space, path. */
  function NotReadyLine(e: Entry): string
  {
    [' ', Letter(e.change), ' '] + e.path
  }

  /** `ReadyRE.FindStringSubmatch(line)`, as (kind, path). */
  function ReadyMatch(line: string): (m: Option<Entry>)
    ensures m.Some? ==> Stageable(m.value) && ReadyLine(m.value) == line
  {
    if |line| < 3 || line[1] != ' ' || line[2] != ' ' || '\n' in line[3..] then None
    else
      match ChangeOf(line[0])
      case Some(k) => if k == Untracked then None else Some(Entry(k, line[3..]))
      case None => None
  }

  /** `NotReadyRE.FindStringSubmatch(line)`, as (kind, path). */
  function NotReadyMatch(line: string): (m: Option<Entry>)
    ensures m.Some? ==> Listable(m.value) && NotReadyLine(m.value) == line
  {
    if |line| < 3 || line[0] != ' ' || line[2] != ' ' || '\n' in line[3..] then None
    else
      match ChangeOf(line[1])
      case Some(k) => Some(Entry(k, line[3..]))
      case None => None
  }

  /** The ready pattern accepts exactly the rendered ready lines. */
  lemma ReadyMatchExactly(line: string, e: Entry)
    ensures ReadyMatch(line) == Some(e) <==> Stageable(e) && line == ReadyLine(e)
  {
    if Stageable(e) && line == ReadyLine(e) {
      assert line[3..] == e.path;
    }
    if ReadyMatch(line) == Some(e) {
      assert line == [line[0], line[1], line[2]] + line[3..];
    }
  }

  /** The not-ready pattern accepts exactly the rendered not-ready lines. */
  lemma NotReadyMatchExactly(line: string, e: Entry)
    ensures NotReadyMatch(line) == Some(e) <==> Listable(e) && line == NotReadyLine(e)
  {
    if Listable(e) && line == NotReadyLine(e) {
      assert line[3..] == e.path;
    }
    if NotReadyMatch(line) == Some(e) {
      assert line == [line[0], line[1], line[2]] + line[3..];
    }
  }

  /** The adds one line makes in the loop body (git.go:45-50): both patterns
      are tried and each match is passed to `Ready.add`. Since the patterns
      disagree on the first character, a line makes at most one add. */
  function LineAdds(line: string): (adds: seq<Entry>)
    ensures |adds| <= 1
  {
    ToSeq(ReadyMatch(line)) + ToSeq(NotReadyMatch(line))
  }

  /** The adds of a ready-pattern match alone (the intended `Ready.add`). */
  function ReadyAdds(line: string): seq<Entry>
  {
    ToSeq(ReadyMatch(line))
  }

  /** The adds of a not-ready-pattern match alone (the intended `NotReady.add`). */
  function NotReadyAdds(line: string): seq<Entry>
  {
    ToSeq(NotReadyMatch(line))
  }

  /** The line is the entry's ready line or its not-ready line. */
  predicate RendersAs(line: string, e: Entry)
  {
    (Stageable(e) && line == ReadyLine(e)) || (Listable(e) && line == NotReadyLine(e))
  }

  /** A line adds an entry exactly when it is that entry's ready or not-ready line. */
  lemma LineAddsExactly(line: string, e: Entry)
    ensures e in LineAdds(line) <==> RendersAs(line, e)
  {
    ReadyMatchExactly(line, e);
    NotReadyMatchExactly(line, e);
  }

  /** A ready line adds its own entry, once. */
  lemma ReadyLineAdds(e: Entry)
    requires Stageable(e)
    ensures LineAdds(ReadyLine(e)) == [e]
  {
    ReadyMatchExactly(ReadyLine(e), e);
  }

  /** A not-ready line also adds its own entry, once, through the same `Ready.add`. */
  lemma NotReadyLineAdds(e: Entry)
    requires Listable(e)
    ensures LineAdds(NotReadyLine(e)) == [e]
  {
    NotReadyMatchExactly(NotReadyLine(e), e);
    assert NotReadyLine(e)[0] == ' ';
  }

  /** The adds of all lines, in line order. */
  function Collect(lines: seq<string>, adds: string -> seq<Entry>): (r: seq<Entry>)
    ensures forall e :: e in r ==> exists i :: 0 <= i < |lines| && e in adds(lines[i])
  {
    if |lines| == 0 then [] else adds(lines[0]) + Collect(lines[1..], adds)
  }

  /** Collecting over concatenated lines concatenates the adds: adds happen in line order. */
  lemma {:induction false} CollectAppend(a: seq<string>, b: seq<string>, adds: string -> seq<Entry>)
    ensures Collect(a + b, adds) == Collect(a, adds) + Collect(b, adds)
    decreases |a|
  {
    if |a| > 0 {
      assert (a + b)[1..] == a[1..] + b;
      CollectAppend(a[1..], b, adds);
    } else {
      assert a + b == b;
    }
  }

  /** An entry is collected exactly when some line adds it. */
  lemma {:induction false} CollectMember(lines: seq<string>, adds: string -> seq<Entry>, e: Entry)
    ensures e in Collect(lines, adds) <==> exists i :: 0 <= i < |lines| && e in adds(lines[i])
    decreases |lines|
  {
    if |lines| > 0 {
      CollectMember(lines[1..], adds, e);
      if e in Collect(lines[1..], adds) {
        var i :| 0 <= i < |lines[1..]| && e in adds(lines[1..][i]);
        assert e in adds(lines[i + 1]);
      }
      if exists i :: 0 <= i < |lines| && e in adds(lines[i]) {
        var i :| 0 <= i < |lines| && e in adds(lines[i]);
        if i > 0 {
          assert lines[1..][i - 1] == lines[i];
        }
      }
    }
  }

  /** With the source's line body, every line makes at most one add. */
  lemma {:induction false} CollectAtMostOnePerLine(lines: seq<string>)
    ensures |Collect(lines, LineAdds)| <= |lines|
    decreases |lines|
  {
    if |lines| > 0 {
      CollectAtMostOnePerLine(lines[1..]);
      assert |LineAdds(lines[0])| <= 1;
    }
  }

  /** The as-written line body adds what the two intended records would receive together. */
  lemma {:induction false} CollectMergesRecords(lines: seq<string>)
    ensures multiset(Collect(lines, LineAdds))
            == multiset(Collect(lines, ReadyAdds)) + multiset(Collect(lines, NotReadyAdds))
    decreases |lines|
  {
    if |lines| > 0 {
      CollectMergesRecords(lines[1..]);
      assert LineAdds(lines[0]) == ReadyAdds(lines[0]) + NotReadyAdds(lines[0]);
    }
  }

  /** The status snapshot: the adds received by the Ready and NotReady
      records, and the error of the status command. */
  datatype Snapshot = Snapshot(ready: seq<Entry>, notReady: seq<Entry>, err: Option<CmdError>)

  const StatusArgs: seq<string> := ["status", "--porcelain"]

  /** `GetStatus()` as written: an error or empty output parses nothing and
      keeps the error; otherwise every add of every line goes to Ready. */
  function GetStatus(git: Git): (s: Snapshot)
    ensures s.err == git(StatusArgs).err
    ensures s.notReady == []
    ensures git(StatusArgs).err.Some? || git(StatusArgs).text == "" ==> s.ready == []
    ensures |s.ready| <= |Split(git(StatusArgs).text, '\n')|
  {
    var out := git(StatusArgs);
    if out.err.Some? || out.text == "" then Snapshot([], [], out.err)
    else
      var lines := Split(out.text, '\n');
      CollectAtMostOnePerLine(lines);
      Snapshot(Collect(lines, LineAdds), [], out.err)
  }

  /** `GetStatus()` as evidently intended: not-ready matches go to NotReady. */
  function GetStatusIntended(git: Git): (s: Snapshot)
    ensures s.err == git(StatusArgs).err
    ensures git(StatusArgs).err.Some? || git(StatusArgs).text == "" ==> s.ready == [] && s.notReady == []
  {
    var out := git(StatusArgs);
    if out.err.Some? || out.text == "" then Snapshot([], [], out.err)
    else
      var lines := Split(out.text, '\n');
      Snapshot(Collect(lines, ReadyAdds), Collect(lines, NotReadyAdds), out.err)
  }

  /** An entry is in the as-written Ready record exactly when some output
      line is its ready line or its not-ready line. */
  lemma ReadyHoldsRenderedEntries(git: Git, e: Entry)
    requires git(StatusArgs).err.None? && git(StatusArgs).text != ""
    ensures e in GetStatus(git).ready ==>
              exists i :: 0 <= i < |Split(git(StatusArgs).text, '\n')| &&
                RendersAs(Split(git(StatusArgs).text, '\n')[i], e)
    ensures (exists i :: 0 <= i < |Split(git(StatusArgs).text, '\n')| &&
               RendersAs(Split(git(StatusArgs).text, '\n')[i], e)) ==>
              e in GetStatus(git).ready
  {
    var lines := Split(git(StatusArgs).text, '\n');
    CollectMember(lines, LineAdds, e);
    forall i | 0 <= i < |lines|
      ensures e in LineAdds(lines[i]) <==> RendersAs(lines[i], e)
    {
      LineAddsExactly(lines[i], e);
    }
  }


  /** A trailing newline never changes the snapshot: its empty field adds nothing. */
  lemma TrailingNewlineIgnored(git: Git, git': Git)
    requires git(StatusArgs).err == git'(StatusArgs).err
    requires git(StatusArgs).text != ""
    requires git'(StatusArgs).text == git(StatusArgs).text + "\n"
    ensures GetStatus(git') == GetStatus(git)
    ensures GetStatusIntended(git') == GetStatusIntended(git)
  {
    var s := git(StatusArgs).text;
    SplitTrailingSep(s, '\n');
    var lines := Split(s, '\n');
    CollectAppend(lines, [""], LineAdds);
    CollectAppend(lines, [""], ReadyAdds);
    CollectAppend(lines, [""], NotReadyAdds);
  }

  /** One line of a porcelain report: a ready or a not-ready entry. */
  datatype Record = ReadyRecord(entry: Entry) | NotReadyRecord(entry: Entry)

  predicate WellFormed(r: Record)
  {
    match r
    case ReadyRecord(e) => Stageable(e)
    case NotReadyRecord(e) => Listable(e)
  }

  function Render(r: Record): string
  {
    match r
    case ReadyRecord(e) => ReadyLine(e)
    case NotReadyRecord(e) => NotReadyLine(e)
  }

  /** A porcelain report: every record's line followed by a newline. */
  function Porcelain(recs: seq<Record>): string
  {
    if |recs| == 0 then "" else Render(recs[0]) + "\n" + Porcelain(recs[1..])
  }

  function RenderAll(recs: seq<Record>): (lines: seq<string>)
    ensures |lines| == |recs|
    ensures forall i :: 0 <= i < |recs| ==> lines[i] == Render(recs[i])
  {
    if |recs| == 0 then [] else [Render(recs[0])] + RenderAll(recs[1..])
  }

  function Entries(recs: seq<Record>): (es: seq<Entry>)
    ensures |es| == |recs|
  {
    if |recs| == 0 then [] else [recs[0].entry] + Entries(recs[1..])
  }

  function ReadyEntries(recs: seq<Record>): seq<Entry>
  {
    if |recs| == 0 then []
    else (if recs[0].ReadyRecord? then [recs[0].entry] else []) + ReadyEntries(recs[1..])
  }

  function NotReadyEntries(recs: seq<Record>): seq<Entry>
  {
    if |recs| == 0 then []
    else (if recs[0].NotReadyRecord? then [recs[0].entry] else []) + NotReadyEntries(recs[1..])
  }

  /** A report is its lines joined by newlines, with a final empty field. */
  lemma {:induction false} PorcelainIsJoin(recs: seq<Record>)
    ensures Porcelain(recs) == Join(RenderAll(recs) + [""], '\n')
    decreases |recs|
  {
    if |recs| > 0 {
      PorcelainIsJoin(recs[1..]);
      var rest := RenderAll(recs[1..]) + [""];
      assert RenderAll(recs) + [""] == [Render(recs[0])] + rest;
      assert ([Render(recs[0])] + rest)[1..] == rest;
    }
  }

  /** A well-formed record renders to a single line. */
  lemma RenderIsOneLine(r: Record)
    requires WellFormed(r)
    ensures '\n' !in Render(r)
  {
    var e := r.entry;
    var head := if r.ReadyRecord? then [Letter(e.change), ' ', ' '] else [' ', Letter(e.change), ' '];
    assert Render(r) == head + e.path;
    assert '\n' !in head;
  }

  /** Splitting a report gives back its lines and the final empty field. */
  lemma SplitPorcelain(recs: seq<Record>)
    requires forall i :: 0 <= i < |recs| ==> WellFormed(recs[i])
    ensures Split(Porcelain(recs), '\n') == RenderAll(recs) + [""]
  {
    PorcelainIsJoin(recs);
    var parts := RenderAll(recs) + [""];
    forall i | 0 <= i < |parts|
      ensures '\n' !in parts[i]
    {
      if i < |recs| {
        assert parts[i] == Render(recs[i]);
        RenderIsOneLine(recs[i]);
      }
    }
    SplitJoin(parts, '\n');
  }

  /** A ready record's line is picked up by the ready pattern only. */
  lemma ReadyRecordAdds(e: Entry)
    requires Stageable(e)
    ensures LineAdds(ReadyLine(e)) == [e]
    ensures ReadyAdds(ReadyLine(e)) == [e]
    ensures NotReadyAdds(ReadyLine(e)) == []
  {
    ReadyMatchExactly(ReadyLine(e), e);
    assert NotReadyMatch(ReadyLine(e)).None?;
  }

  /** A not-ready record's line is picked up by the not-ready pattern only. */
  lemma NotReadyRecordAdds(e: Entry)
    requires Listable(e)
    ensures LineAdds(NotReadyLine(e)) == [e]
    ensures ReadyAdds(NotReadyLine(e)) == []
    ensures NotReadyAdds(NotReadyLine(e)) == [e]
  {
    NotReadyMatchExactly(NotReadyLine(e), e);
    assert NotReadyLine(e)[0] == ' ';
    assert ReadyMatch(NotReadyLine(e)).None?;
  }

  /** The adds of one record's line, under each line body. */
  lemma RecordAdds(r: Record)
    requires WellFormed(r)
    ensures LineAdds(Render(r)) == [r.entry]
    ensures ReadyAdds(Render(r)) == (if r.ReadyRecord? then [r.entry] else [])
    ensures NotReadyAdds(Render(r)) == (if r.NotReadyRecord? then [r.entry] else [])
  {
    match r
    case ReadyRecord(e) => ReadyRecordAdds(e);
    case NotReadyRecord(e) => NotReadyRecordAdds(e);
  }

  lemma {:induction false} CollectRendered(recs: seq<Record>)
    requires forall i :: 0 <= i < |recs| ==> WellFormed(recs[i])
    ensures Collect(RenderAll(recs) + [""], LineAdds) == Entries(recs)
    ensures Collect(RenderAll(recs) + [""], ReadyAdds) == ReadyEntries(recs)
    ensures Collect(RenderAll(recs) + [""], NotReadyAdds) == NotReadyEntries(recs)
    decreases |recs|
  {
    if |recs| > 0 {
      assert WellFormed(recs[0]);
      CollectRendered(recs[1..]);
      var lines := RenderAll(recs) + [""];
      assert lines[0] == Render(recs[0]);
      assert lines[1..] == RenderAll(recs[1..]) + [""];
      RecordAdds(recs[0]);
    } else {
      assert RenderAll(recs) + [""] == [""];
    }
  }

  /** Round trip, as written: parsing a report puts every record's entry in
      Ready, in report order, and nothing in NotReady. */
  lemma AsWrittenRoundTrip(git: Git, recs: seq<Record>)
    requires forall i :: 0 <= i < |recs| ==> WellFormed(recs[i])
    requires git(StatusArgs) == Captured(Porcelain(recs), None)
    ensures GetStatus(git) == Snapshot(Entries(recs), [], None)
  {
    SplitPorcelain(recs);
    CollectRendered(recs);
    if |recs| == 0 {
      assert Porcelain(recs) == "";
    }
  }

  /** Round trip, as intended: ready records return to Ready and not-ready
      records to NotReady, each in report order. */
  lemma IntendedRoundTrip(git: Git, recs: seq<Record>)
    requires forall i :: 0 <= i < |recs| ==> WellFormed(recs[i])
    requires git(StatusArgs) == Captured(Porcelain(recs), None)
    ensures GetStatusIntended(git) == Snapshot(ReadyEntries(recs), NotReadyEntries(recs), None)
  {
    SplitPorcelain(recs);
    CollectRendered(recs);
    if |recs| == 0 {
      assert Porcelain(recs) == "";
    }
  }

  /** The as-written Ready record holds, as a multiset, exactly the entries
      of the intended Ready and NotReady records together. */
  lemma AsWrittenMergesIntended(git: Git)
    ensures GetStatus(git).err == GetStatusIntended(git).err
    ensures multiset(GetStatus(git).ready)
            == multiset(GetStatusIntended(git).ready) + multiset(GetStatusIntended(git).notReady)
  {
    var out := git(StatusArgs);
    if !(out.err.Some? || out.text == "") {
      CollectMergesRecords(Split(out.text, '\n'));
    }
  }

  /** The records of the three-line example report. */
  const ExampleReport: seq<Record> :=
    [ReadyRecord(Entry(Modified, "src/main.go")),
     NotReadyRecord(Entry(Untracked, "notes.txt")),
     ReadyRecord(Entry(Added, "README.md"))]

  /** The example report as `git status --porcelain` prints it. */
  const ExampleOutput: string := "M  src/main.go\n ? notes.txt\nA  README.md\n"

  lemma PorcelainCons(r: Record, rest: seq<Record>)
    ensures Porcelain([r] + rest) == Render(r) + "\n" + Porcelain(rest)
  {
    assert ([r] + rest)[1..] == rest;
  }

  lemma ExampleLines()
    ensures Render(ExampleReport[0]) == "M  src/main.go"
    ensures Render(ExampleReport[1]) == " ? notes.txt"
    ensures Render(ExampleReport[2]) == "A  README.md"
  {
    assert ReadyLine(Entry(Modified, "src/main.go")) == ['M', ' ', ' '] + "src/main.go";
    assert NotReadyLine(Entry(Untracked, "notes.txt")) == [' ', '?', ' '] + "notes.txt";
    assert ReadyLine(Entry(Added, "README.md")) == ['A', ' ', ' '] + "README.md";
  }

  lemma ExampleJoin()
    ensures "M  src/main.go" + "\n" + (" ? notes.txt" + "\n" + ("A  README.md" + "\n" + "")) == ExampleOutput
  {
  }

  /** The example records rendered as a report give the example output. */
  lemma ExamplePorcelain()
    ensures Porcelain(ExampleReport) == ExampleOutput
  {
    var r0, r1, r2 := ExampleReport[0], ExampleReport[1], ExampleReport[2];
    assert ExampleReport == [r0] + ([r1] + ([r2] + []));
    ExampleLines();
    PorcelainCons(r2, []);
    PorcelainCons(r1, [r2] + []);
    PorcelainCons(r0, [r1] + ([r2] + []));
    ExampleJoin();
  }

  /** The example records are well formed, and their entries per record. */
  lemma ExampleRecords()
    ensures forall i :: 0 <= i < |ExampleReport| ==> WellFormed(ExampleReport[i])
    ensures Entries(ExampleReport)
            == [Entry(Modified, "src/main.go"), Entry(Untracked, "notes.txt"), Entry(Added, "README.md")]
    ensures ReadyEntries(ExampleReport) == [Entry(Modified, "src/main.go"), Entry(Added, "README.md")]
    ensures NotReadyEntries(ExampleReport) == [Entry(Untracked, "notes.txt")]
  {
    var recs := ExampleReport;
    assert recs[1..][1..] == recs[2..];
    assert recs[2..][1..] == [];
  }

  /** The three-line report "M  src/main.go\n ? notes.txt\nA  README.md\n":
      as written, the untracked file lands in Ready under `?` and NotReady
      stays empty. */
  lemma ExampleAsWritten(git: Git)
    requires git(StatusArgs) == Captured("M  src/main.go\n ? notes.txt\nA  README.md\n", None)
    ensures GetStatus(git).ready ==
              [Entry(Modified, "src/main.go"), Entry(Untracked, "notes.txt"), Entry(Added, "README.md")]
    ensures GetStatus(git).notReady == []
  {
    ExamplePorcelain();
    ExampleRecords();
    AsWrittenRoundTrip(git, ExampleReport);
  }

  /** The same report as intended: the untracked file lands in NotReady only. */
  lemma ExampleIntended(git: Git)
    requires git(StatusArgs) == Captured("M  src/main.go\n ? notes.txt\nA  README.md\n", None)
    ensures GetStatusIntended(git).ready == [Entry(Modified, "src/main.go"), Entry(Added, "README.md")]
    ensures GetStatusIntended(git).notReady == [Entry(Untracked, "notes.txt")]
  {
    ExamplePorcelain();
    ExampleRecords();
    IntendedRoundTrip(git, ExampleReport);
  }

  /** Lines of neither shape add nothing: the empty field after a trailing
      newline, a two-letter code, a path-less line. */
  lemma UnmatchedLinesAddNothing()
    ensures LineAdds("") == []
    ensures LineAdds("MM x") == []
    ensures LineAdds("?? x") == []
    ensures LineAdds("M ") == []
  {
  }
}
