/** `String.prototype.split` with a one-character string separator, and the
    indexing `fields[i]` that yields `undefined` past the last field. */
module JsSplit {
  import opened Wrappers

  /** The fields of `s` between occurrences of `sep`, empty ones included.
      There is always at least one field: `"".split(sep)` is `[""]`. */
  function Split(s: string, sep: char): (fields: seq<string>)
    ensures |fields| >= 1
    ensures |fields| == 1 <==> sep !in s
    ensures forall i :: 0 <= i < |fields| ==> sep !in fields[i]
    decreases |s|
  {
    if |s| == 0 then [""]
    else if s[0] == sep then [""] + Split(s[1..], sep)
    else
      var rest := Split(s[1..], sep);
      [[s[0]] + rest[0]] + rest[1..]
  }

  /** `fields.join(sep)`: the fields with one separator between each two. */
  function Join(fields: seq<string>, sep: char): string
    requires |fields| >= 1
    decreases |fields|
  {
    if |fields| == 1 then fields[0] else fields[0] + [sep] + Join(fields[1..], sep)
  }

  /** `s.split(sep)[i]`: the field at index `i`, or `undefined`. */
  function Field(s: string, sep: char, i: nat): (r: Option<string>)
    ensures r.Some? <==> i < |Split(s, sep)|
    ensures r.Some? ==> sep !in r.value
  {
    var fields := Split(s, sep);
    if i < |fields| then Some(fields[i]) else None
  }

  /** Splitting loses nothing: joining the fields back gives `s`. */
  lemma {:induction false} JoinSplit(s: string, sep: char)
    ensures Join(Split(s, sep), sep) == s
    decreases |s|
  {
    if |s| == 0 {
    } else if s[0] == sep {
      JoinSplit(s[1..], sep);
      var rest := Split(s[1..], sep);
      assert Split(s, sep)[1..] == rest;
    } else {
      JoinSplit(s[1..], sep);
      var rest := Split(s[1..], sep);
      var fields := Split(s, sep);
      if |rest| == 1 {
        assert fields == [[s[0]] + rest[0]];
      } else {
        assert fields[1..] == rest[1..];
        assert Join(rest, sep) == rest[0] + [sep] + Join(rest[1..], sep);
      }
      assert s == [s[0]] + s[1..];
    }
  }

  /** A text without the separator is a single field. */
  lemma {:induction false} SplitWithoutSeparator(a: string, sep: char)
    requires sep !in a
    ensures Split(a, sep) == [a]
    decreases |a|
  {
    if |a| > 0 {
      SplitWithoutSeparator(a[1..], sep);
      assert a == [a[0]] + a[1..];
    }
  }

  /** The first separator ends the first field; the rest is split on its own. */
  lemma {:induction false} SplitAtFirstSeparator(a: string, sep: char, b: string)
    requires sep !in a
    ensures Split(a + [sep] + b, sep) == [a] + Split(b, sep)
    decreases |a|
  {
    var s := a + [sep] + b;
    if |a| == 0 {
      assert s[1..] == b;
    } else {
      assert s[1..] == a[1..] + [sep] + b;
      SplitAtFirstSeparator(a[1..], sep, b);
      assert a == [a[0]] + a[1..];
    }
  }

  /** Splitting undoes joining when no field holds the separator. */
  lemma {:induction false} SplitJoin(fields: seq<string>, sep: char)
    requires |fields| >= 1
    requires forall i :: 0 <= i < |fields| ==> sep !in fields[i]
    ensures Split(Join(fields, sep), sep) == fields
    decreases |fields|
  {
    if |fields| == 1 {
      SplitWithoutSeparator(fields[0], sep);
    } else {
      SplitJoin(fields[1..], sep);
      SplitAtFirstSeparator(fields[0], sep, Join(fields[1..], sep));
    }
  }

  /** A text holding the separator is its first field, the separator, its
      second field and a tail that is empty or starts with the separator. */
  lemma SplitFirstTwo(s: string, sep: char) returns (tail: string)
    requires sep in s
    ensures |Split(s, sep)| >= 2
    ensures tail == [] || tail[0] == sep
    ensures s == Split(s, sep)[0] + [sep] + Split(s, sep)[1] + tail
  {
    var fields := Split(s, sep);
    JoinSplit(s, sep);
    var later := fields[1..];
    assert later[0] == fields[1];
    if |fields| == 2 {
      tail := [];
    } else {
      assert later[1..] == fields[2..];
      tail := [sep] + Join(fields[2..], sep);
    }
  }
}
