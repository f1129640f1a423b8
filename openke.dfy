/** Conversion of OpenKE data files: triplet files (a count line, then
    `head tail relation` lines) become head/relation/tail tables, optionally
    followed by their mirror image, and `name<TAB>id` dictionary files become
    `id<TAB>name` files. Lines are given already read; the triplet readers
    receive each line's tab-separated fields already converted to integers. */
module OpenKE {

  /** A row of the output table, in head/relation/tail order. */
  datatype Row = Row(head: int, relation: int, tail: int)

  /** The Python exceptions the converters can raise. */
  datatype Failure = IndexError | ValueError | AttributeError

  /** What a reader hands back: `None` for an empty file, a table, or an exception. */
  datatype ReadOutcome = Absent | Table(rows: seq<Row>) | Raised(error: Failure)

  // ---------------------------------------------------------------------------
  // Triplet files
  // ---------------------------------------------------------------------------

  /** The row of a data line: OpenKE's head, tail, relation reordered. */
  function FromOpenKE(fields: seq<int>): Row
    requires |fields| >= 3
  {
    Row(fields[0], fields[2], fields[1])
  }

  /** The OpenKE fields of a row. */
  function ToOpenKE(row: Row): seq<int> {
    [row.head, row.tail, row.relation]
  }

  /** Reordering loses nothing: the row gives back the fields it was read from. */
  lemma RowRoundTrip(fields: seq<int>, row: Row)
    requires |fields| == 3
    ensures ToOpenKE(FromOpenKE(fields)) == fields
    ensures FromOpenKE(ToOpenKE(row)) == row
  {
  }

  /** The lines that make filling the table fail: a data line with fewer than
      three fields, or more data lines than the count on the first line. */
  predicate Overflows(lines: seq<seq<int>>)
    requires |lines| > 0 && |lines[0]| >= 1
  {
    |lines| - 1 > lines[0][0] || exists k :: 1 <= k < |lines| && |lines[k]| < 3
  }

  /** The table of `n` rows, zero where no data line filled them. */
  function Filled(lines: seq<seq<int>>, n: nat): (rows: seq<Row>)
    requires forall k :: 1 <= k < |lines| ==> |lines[k]| >= 3
    ensures |rows| == n
  {
    seq(n, j requires 0 <= j < n => if j + 1 < |lines| then FromOpenKE(lines[j + 1]) else Row(0, 0, 0))
  }

  /** Reads a triplet file: the first line's first field is the row count;
      the table starts as that many zero rows and data line k fills row k-1. */
  method ReadOpenKEEdges(lines: seq<seq<int>>) returns (r: ReadOutcome)
    requires forall k :: 0 <= k < |lines| ==> |lines[k]| >= 1
    ensures r == Absent <==> |lines| == 0
    ensures r == Raised(ValueError) <==> |lines| > 0 && lines[0][0] < 0
    ensures r == Raised(IndexError) <==> |lines| > 0 && lines[0][0] >= 0 && Overflows(lines)
    ensures r != Raised(AttributeError)
    ensures r.Table? ==>
      |lines| > 0 && lines[0][0] >= 0 && !Overflows(lines) &&
      r.rows == Filled(lines, lines[0][0])
  {
    r := Absent;
    var table: array<Row> := new Row[0];
    var idx := 0;
    while idx < |lines|
      invariant 0 <= idx <= |lines|
      invariant fresh(table)
      invariant idx == 0 ==> r == Absent
      invariant idx > 0 ==> r == Table([]) && 0 <= lines[0][0] == table.Length && idx - 1 <= table.Length
      invariant forall k :: 1 <= k < idx ==> |lines[k]| >= 3
      invariant forall j :: 0 <= j < table.Length ==>
        table[j] == if j + 1 < idx then FromOpenKE(lines[j + 1]) else Row(0, 0, 0)
    {
      var fields := lines[idx];
      if idx == 0 {
        if fields[0] < 0 {
          return Raised(ValueError);
        }
        table := new Row[fields[0]](_ => Row(0, 0, 0));
        r := Table([]);
      } else {
        if |fields| < 3 || idx - 1 >= table.Length {
          return Raised(IndexError);
        }
        table[idx - 1] := FromOpenKE(fields);
      }
      idx := idx + 1;
    }
    if idx > 0 {
      r := Table(table[..]);
      assert r.rows == Filled(lines, lines[0][0]);
    }
  }

  /** The row with head and tail exchanged. */
  function Swap(row: Row): Row {
    Row(row.tail, row.relation, row.head)
  }

  /** The copy of the table with the head and tail columns exchanged. */
  function Mirror(rows: seq<Row>): (m: seq<Row>)
    ensures |m| == |rows|
  {
    seq(|rows|, j requires 0 <= j < |rows| => Swap(rows[j]))
  }

  /** Mirroring twice gives back the table. */
  lemma {:induction false} MirrorInvolutive(rows: seq<Row>)
    ensures Mirror(Mirror(rows)) == rows
  {
    assert forall j :: 0 <= j < |rows| ==> Mirror(Mirror(rows))[j] == rows[j];
  }

  /** In the table followed by its mirror every row comes with its swap, the
      one at distance n. */
  lemma {:induction false} MirrorSymmetric(rows: seq<Row>)
    ensures var all := rows + Mirror(rows);
      forall i :: 0 <= i < |all| ==> Swap(all[i]) in all
  {
    var n := |rows|;
    var all := rows + Mirror(rows);
    forall i | 0 <= i < |all|
      ensures Swap(all[i]) in all
    {
      if i < n {
        assert Swap(all[i]) == all[i + n];
      } else {
        assert Swap(all[i]) == all[i - n];
      }
    }
  }

  /** Reads a triplet file and appends the mirrored copy of its table; on an
      empty file the reader's `None` has no `copy`, an AttributeError. */
  method ReadOpenKEEdgesMirrored(lines: seq<seq<int>>) returns (r: ReadOutcome)
    requires forall k :: 0 <= k < |lines| ==> |lines[k]| >= 1
    ensures r == Raised(AttributeError) <==> |lines| == 0
    ensures r == Raised(ValueError) <==> |lines| > 0 && lines[0][0] < 0
    ensures r == Raised(IndexError) <==> |lines| > 0 && lines[0][0] >= 0 && Overflows(lines)
    ensures r != Absent
    ensures r.Table? ==>
      |lines| > 0 && lines[0][0] >= 0 && !Overflows(lines) &&
      r.rows == Filled(lines, lines[0][0]) + Mirror(Filled(lines, lines[0][0]))
  {
    var plain := ReadOpenKEEdges(lines);
    match plain {
      case Absent => r := Raised(AttributeError);
      case Raised(_) => r := plain;
      case Table(rows) => r := Table(rows + Mirror(rows));
    }
  }

  // ---------------------------------------------------------------------------
  // Python's str.strip() and str.split('\t')
  // ---------------------------------------------------------------------------

  /** The characters Python's str.isspace() accepts. */
  predicate IsSpace(c: char) {
    ('\t' <= c <= '\r') || ('\U{1C}' <= c <= ' ') || c == '\U{85}' || c == '\U{A0}' ||
    c == '\U{1680}' || ('\U{2000}' <= c <= '\U{200A}') || c == '\U{2028}' || c == '\U{2029}' ||
    c == '\U{202F}' || c == '\U{205F}' || c == '\U{3000}'
  }

  /** `s` without its leading whitespace. */
  function TrimStart(s: string): (t: string)
    ensures |t| <= |s| && t == s[|s| - |t|..]
    ensures forall i :: 0 <= i < |s| - |t| ==> IsSpace(s[i])
    ensures |t| > 0 ==> !IsSpace(t[0])
  {
    if |s| > 0 && IsSpace(s[0]) then TrimStart(s[1..]) else s
  }

  /** `s` without its trailing whitespace. */
  function TrimEnd(s: string): (t: string)
    ensures |t| <= |s| && t == s[..|t|]
    ensures forall i :: |t| <= i < |s| ==> IsSpace(s[i])
    ensures |t| > 0 ==> !IsSpace(t[|t| - 1])
  {
    if |s| > 0 && IsSpace(s[|s| - 1]) then TrimEnd(s[..|s| - 1]) else s
  }

  /** str.strip(): both ends trimmed. */
  function Strip(s: string): (t: string)
    ensures |t| > 0 ==> !IsSpace(t[0]) && !IsSpace(t[|t| - 1])
    ensures (|s| == 0 || (!IsSpace(s[0]) && !IsSpace(s[|s| - 1]))) ==> t == s
  {
    TrimEnd(TrimStart(s))
  }

  /** The stripped line is the line with its leading and its trailing
      whitespace removed, and nothing else: it starts after the first `i`
      characters, all whitespace, and everything after it is whitespace. */
  lemma {:induction false} StripRemovesEnds(s: string) returns (i: nat)
    ensures i + |Strip(s)| <= |s| && Strip(s) == s[i..i + |Strip(s)|]
    ensures forall k :: 0 <= k < i ==> IsSpace(s[k])
    ensures forall k :: i + |Strip(s)| <= k < |s| ==> IsSpace(s[k])
  {
    var u := TrimStart(s);
    i := |s| - |u|;
    TrimEndOfSuffix(s, u);
  }

  /** Trimming the end of a suffix `u` of `s` leaves a factor of `s` followed
      only by whitespace. */
  lemma {:induction false} TrimEndOfSuffix(s: string, u: string)
    requires |u| <= |s| && u == s[|s| - |u|..]
    ensures var t, i := TrimEnd(u), |s| - |u|;
      i + |t| <= |s| && t == s[i..i + |t|] &&
      forall k :: i + |t| <= k < |s| ==> IsSpace(s[k])
  {
    var i := |s| - |u|;
    var t := TrimEnd(u);
    forall k | i + |t| <= k < |s|
      ensures IsSpace(s[k])
    {
      assert s[k] == u[k - i];
    }
  }

  /** str.split('\t'): the pieces between tabs; there is always one more
      piece than there are tabs. */
  function SplitTab(s: string): (parts: seq<string>)
    ensures |parts| >= 1
    ensures forall i :: 0 <= i < |parts| ==> '\t' !in parts[i]
  {
    if |s| == 0 then [""]
    else
      var rest := SplitTab(s[1..]);
      if s[0] == '\t' then [""] + rest
      else [[s[0]] + rest[0]] + rest[1..]
  }

  /** '\t'.join(parts). */
  function JoinTab(parts: seq<string>): string
    requires |parts| >= 1
  {
    if |parts| == 1 then parts[0] else parts[0] + "\t" + JoinTab(parts[1..])
  }

  /** Joining the pieces with tabs gives back the split string. */
  lemma {:induction false} SplitJoin(s: string)
    ensures JoinTab(SplitTab(s)) == s
  {
    if |s| > 0 {
      SplitJoin(s[1..]);
      JoinStep(s[0], SplitTab(s[1..]));
      assert s == [s[0]] + s[1..];
    }
  }

  /** One character in front of the split string: a tab opens a new empty
      piece, any other character extends the first piece. */
  lemma JoinStep(c: char, rest: seq<string>)
    requires |rest| >= 1
    ensures JoinTab(if c == '\t' then [""] + rest else [[c] + rest[0]] + rest[1..]) == [c] + JoinTab(rest)
  {
    if c == '\t' {
      assert ([""] + rest)[1..] == rest;
    } else if |rest| > 1 {
      assert ([[c] + rest[0]] + rest[1..])[1..] == rest[1..];
    }
  }

  /** A tab-free string is one piece. */
  lemma {:induction false} SplitTabFree(a: string)
    requires '\t' !in a
    ensures SplitTab(a) == [a]
  {
    if |a| > 0 {
      SplitTabFree(a[1..]);
      assert a == [a[0]] + a[1..];
    }
  }

  /** A tab-free piece followed by a tab starts the split. */
  lemma {:induction false} SplitTabPrefix(a: string, b: string)
    requires '\t' !in a
    ensures SplitTab(a + "\t" + b) == [a] + SplitTab(b)
  {
    if |a| == 0 {
      assert a + "\t" + b == "\t" + b;
      assert ("\t" + b)[1..] == b;
    } else {
      SplitTabPrefix(a[1..], b);
      assert (a + "\t" + b)[1..] == a[1..] + "\t" + b;
      assert [a[0]] + a[1..] == a;
    }
  }

  /** Splitting tab-joined tab-free pieces gives back the pieces. */
  lemma {:induction false} JoinSplit(parts: seq<string>)
    requires |parts| >= 1
    requires forall i :: 0 <= i < |parts| ==> '\t' !in parts[i]
    ensures SplitTab(JoinTab(parts)) == parts
  {
    if |parts| == 1 {
      SplitTabFree(parts[0]);
    } else {
      JoinSplit(parts[1..]);
      SplitTabPrefix(parts[0], JoinTab(parts[1..]));
      assert [parts[0]] + parts[1..] == parts;
    }
  }

  // ---------------------------------------------------------------------------
  // Dictionary files
  // ---------------------------------------------------------------------------

  /** The stripped line has at least the two fields the writer reads. */
  predicate HasTwoFields(line: string) {
    |SplitTab(Strip(line))| >= 2
  }

  /** The output line for a dictionary line: its second field, a tab, its
      first field, a newline. */
  function DictLine(line: string): string
    requires HasTwoFields(line)
  {
    var fields := SplitTab(Strip(line));
    fields[1] + "\t" + fields[0] + "\n"
  }

  /** A `name<TAB>id` line becomes `id<TAB>name`, whatever line ending it had. */
  lemma {:induction false} DictLineSwap(name: string, id: string, ending: string)
    requires |name| > 0 && |id| > 0 && '\t' !in name && '\t' !in id
    requires !IsSpace(name[0]) && !IsSpace(id[|id| - 1])
    requires forall i :: 0 <= i < |ending| ==> IsSpace(ending[i])
    ensures HasTwoFields(name + "\t" + id + ending)
    ensures DictLine(name + "\t" + id + ending) == id + "\t" + name + "\n"
  {
    var body := name + "\t" + id;
    var line := body + ending;
    assert TrimStart(line) == line;
    assert TrimEnd(line) == body by {
      TrimEndSpaces(body, ending);
    }
    assert Strip(line) == body;
    SplitTabPrefix(name, id);
    SplitTabFree(id);
  }

  /** Trailing whitespace after a non-space character is exactly what TrimEnd drops. */
  lemma {:induction false} TrimEndSpaces(body: string, ending: string)
    requires |body| > 0 && !IsSpace(body[|body| - 1])
    requires forall i :: 0 <= i < |ending| ==> IsSpace(ending[i])
    ensures TrimEnd(body + ending) == body
  {
    if |ending| > 0 {
      var shorter := ending[..|ending| - 1];
      assert (body + ending)[..|body + ending| - 1] == body + shorter;
      TrimEndSpaces(body, shorter);
    } else {
      assert body + ending == body;
    }
  }

  /** Writes a dictionary file: the first (header) line is skipped and every
      other line is written with its two fields swapped; a line without two
      fields raises IndexError, and the lines already written stay written. */
  method WriteOpenKEEntities(lines: seq<string>) returns (written: seq<string>, raised: bool)
    ensures raised <==> exists k :: 1 <= k < |lines| && !HasTwoFields(lines[k])
    ensures forall j :: 0 <= j < |written| ==>
      j + 1 < |lines| && HasTwoFields(lines[j + 1]) && written[j] == DictLine(lines[j + 1])
    ensures raised ==> |written| + 1 < |lines| && !HasTwoFields(lines[|written| + 1])
    ensures !raised ==> |written| == if |lines| == 0 then 0 else |lines| - 1
  {
    written := [];
    raised := false;
    var idx := 0;
    while idx < |lines|
      invariant 0 <= idx <= |lines|
      invariant |written| == if idx == 0 then 0 else idx - 1
      invariant forall k :: 1 <= k < idx ==> HasTwoFields(lines[k])
      invariant forall j :: 0 <= j < |written| ==>
        j + 1 < |lines| && HasTwoFields(lines[j + 1]) && written[j] == DictLine(lines[j + 1])
    {
      var fields := SplitTab(Strip(lines[idx]));
      if idx > 0 {
        if |fields| < 2 {
          raised := true;
          return;
        }
        written := written + [fields[1] + "\t" + fields[0] + "\n"];
      }
      idx := idx + 1;
    }
  }
}
