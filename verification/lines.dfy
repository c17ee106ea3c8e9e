/**
 * Go's `strings.Split` and `strings.Join` for a one-character separator.
 * Splitting keeps empty fields: "" splits to [""] and a trailing separator
 * yields a final "" element.
 */
module Lines {

  /** No part contains the separator. */
  predicate SepFree(parts: seq<string>, sep: char)
  {
    forall i :: 0 <= i < |parts| ==> sep !in parts[i]
  }

  /** `strings.Join(parts, string(sep))`. */
  function Join(parts: seq<string>, sep: char): string
  {
    if |parts| == 0 then ""
    else if |parts| == 1 then parts[0]
    else parts[0] + [sep] + Join(parts[1..], sep)
  }

  /** `strings.Split(s, string(sep))`: the fields between separators, in order. */
  function Split(s: string, sep: char): (parts: seq<string>)
    ensures |parts| >= 1
    ensures SepFree(parts, sep)
    ensures Join(parts, sep) == s
    decreases |s|
  {
    if |s| == 0 then [""]
    else
      var rest := Split(s[1..], sep);
      if s[0] == sep then
        assert ([""] + rest)[1..] == rest;
        [""] + rest
      else
        var parts := [[s[0]] + rest[0]] + rest[1..];
        assert parts[1..] == rest[1..];
        assert s == [s[0]] + s[1..];
        parts
  }

  /** A separator-free string is a single field. */
  lemma {:induction false} SplitSepFree(x: string, sep: char)
    requires sep !in x
    ensures Split(x, sep) == [x]
    decreases |x|
  {
    if |x| > 0 {
      SplitSepFree(x[1..], sep);
      assert [x[0]] + x[1..] == x;
    }
  }

  /** The first separator closes the first field. */
  lemma {:induction false} SplitAtFirstSep(x: string, sep: char, y: string)
    requires sep !in x
    ensures Split(x + [sep] + y, sep) == [x] + Split(y, sep)
    decreases |x|
  {
    var s := x + [sep] + y;
    if |x| == 0 {
      assert s[1..] == y;
    } else {
      assert s[1..] == x[1..] + [sep] + y;
      SplitAtFirstSep(x[1..], sep, y);
      assert [x[0]] + x[1..] == x;
    }
  }

  /** Split undoes Join: the parts of a joined, separator-free list come back unchanged. */
  lemma {:induction false} SplitJoin(parts: seq<string>, sep: char)
    requires |parts| >= 1
    requires SepFree(parts, sep)
    ensures Split(Join(parts, sep), sep) == parts
    decreases |parts|
  {
    if |parts| == 1 {
      SplitSepFree(parts[0], sep);
    } else {
      SplitAtFirstSep(parts[0], sep, Join(parts[1..], sep));
      SplitJoin(parts[1..], sep);
      assert [parts[0]] + parts[1..] == parts;
    }
  }

  /** Joining with one more part appends the separator and that part. */
  lemma {:induction false} JoinSnoc(parts: seq<string>, x: string, sep: char)
    requires |parts| >= 1
    ensures Join(parts + [x], sep) == Join(parts, sep) + [sep] + x
    decreases |parts|
  {
    if |parts| > 1 {
      assert (parts + [x])[1..] == parts[1..] + [x];
      JoinSnoc(parts[1..], x, sep);
    }
  }

  /** A trailing separator adds exactly one empty field at the end. */
  lemma SplitTrailingSep(s: string, sep: char)
    ensures Split(s + [sep], sep) == Split(s, sep) + [""]
  {
    var parts := Split(s, sep);
    JoinSnoc(parts, "", sep);
    assert Join(parts + [""], sep) == s + [sep];
    assert SepFree(parts + [""], sep) by {
      forall i | 0 <= i < |parts + [""]|
        ensures sep !in (parts + [""])[i]
      {
        if i < |parts| { assert (parts + [""])[i] == parts[i]; }
      }
    }
    SplitJoin(parts + [""], sep);
  }
}
