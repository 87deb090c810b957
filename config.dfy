/**
 * The configuration text, without the file system: trimString, the ordering
 * check and serialisation of save, and the line loop of loadConfigFile. A file
 * is a sequence of lines as std::getline delivers them.
 */
module Config {
  import opened Wrappers
  import opened Text
  import opened Times
  import opened Parsing
  import opened Resolver

  /** std::isspace in the "C" locale: space, \t, \n, \v, \f and \r. */
  predicate IsSpace(c: char): (b: bool)
    ensures b <==> c in {' ', '\t', '\n', '\U{000B}', '\U{000C}', '\r'}
  {
    c == ' ' || '\t' <= c <= '\r'
  }

  const Nul := '\0'

  // ---------------------------------------------------------------------------
  // trimString

  /** Where the first loop of trimString stops, starting from i: the first non-space at or after i. */
  function TokenStart(s: string, i: nat): (k: nat)
    requires i <= |s|
    ensures i <= k <= |s|
    ensures forall j :: i <= j < k ==> IsSpace(s[j])
    ensures k < |s| ==> !IsSpace(s[k])
    decreases |s| - i
  {
    if i < |s| && IsSpace(s[i]) then TokenStart(s, i + 1) else i
  }

  /** Where the second loop stops, starting from i: the first space or NUL at or after i, or the end. */
  function TokenEnd(s: string, i: nat): (k: nat)
    requires i <= |s|
    ensures i <= k <= |s|
    ensures forall j :: i <= j < k ==> !IsSpace(s[j]) && s[j] != Nul
    ensures k < |s| ==> IsSpace(s[k]) || s[k] == Nul
    decreases |s| - i
  {
    if i < |s| && !IsSpace(s[i]) && s[i] != Nul then TokenEnd(s, i + 1) else i
  }

  /** The string trimString leaves: the first whitespace-free token. */
  function FirstToken(s: string): string {
    s[TokenStart(s, 0)..TokenEnd(s, TokenStart(s, 0))]
  }

  /**
   * trimString: skip leading whitespace, then cut at the next whitespace or NUL.
   * The token starts after whitespace only, holds neither whitespace nor NUL,
   * and ends at whitespace, a NUL or the end of the buffer.
   */
  method TrimString(s: string) returns (start: nat, len: nat)
    ensures start + len <= |s|
    ensures forall j :: 0 <= j < start ==> IsSpace(s[j])
    ensures start < |s| ==> !IsSpace(s[start])
    ensures forall j :: start <= j < start + len ==> !IsSpace(s[j]) && s[j] != Nul
    ensures start + len < |s| ==> IsSpace(s[start + len]) || s[start + len] == Nul
    ensures s[start..start + len] == FirstToken(s)
  {
    start := 0;
    while start < |s| && IsSpace(s[start])
      invariant start <= |s|
      invariant TokenStart(s, start) == TokenStart(s, 0)
    {
      start := start + 1;
    }
    var i := 0;
    while start + i < |s| && !IsSpace(s[start + i]) && s[start + i] != Nul
      invariant start + i <= |s|
      invariant TokenEnd(s, start + i) == TokenEnd(s, start)
    {
      i := i + 1;
    }
    len := i;
  }

  /** A word with no whitespace, NUL or comment character reads back as itself. */
  predicate PlainWord(s: string) {
    forall j :: 0 <= j < |s| ==> !IsSpace(s[j]) && s[j] != Nul && s[j] != '#'
  }

  /**
   * The part of a line before its first '#': a prefix of the line holding no
   * '#', and the whole line when it has none.
   */
  function StripComment(line: string): (r: string)
    ensures |r| <= |line| && r == line[..|r|]
    ensures forall j :: 0 <= j < |r| ==> r[j] != '#'
    ensures |r| < |line| ==> line[|r|] == '#'
  {
    line[..IndexOf(line, '#')]
  }

  /** What the line loop looks at: the first token of the line with its comment cut off. */
  function LineToken(line: string): string {
    FirstToken(StripComment(line))
  }

  lemma LineTokenOfPlainWord(s: string)
    requires PlainWord(s)
    ensures LineToken(s) == s
  {
    assert StripComment(s) == s;
    assert TokenStart(s, 0) == 0;
  }

  // ---------------------------------------------------------------------------
  // save

  /** One row of the editor: the text of its time field and of its temperature field. */
  datatype Row = Row(timeText: string, temperatureText: string)

  const Header := "# redshift-scheduler configuration file"

  /** The default-initialised prev of save: 00:00 with temperature 0, meaning "no previous entry". */
  const NoPrev := Entry(ScheduledTime(0, 0), 0)

  /** getTime then getTemperature of one row. */
  function ParseRow(row: Row): (r: Result<Entry, RuntimeError>)
    ensures r.Success? ==> ValidTime(r.value.time) && MinTemperature <= r.value.temperature <= MaxTemperature
  {
    match ParseTime(row.timeText)
    case Failure(e) => Failure(e)
    case Success(t) =>
      match ParseTemperature(row.temperatureText)
      case Failure(e) => Failure(e)
      case Success(n) => Success(Entry(t, n))
  }

  /** An entry as the editor can hold it: a valid time and a temperature within 1000-25000 K. */
  predicate Storable(e: Entry) {
    ValidTime(e.time) && MinTemperature <= e.temperature <= MaxTemperature
  }

  /** The loop of save over the rows after prev: the parsed entries, or the first error met. */
  function CheckRows(prev: Entry, rows: seq<Row>): Result<seq<Entry>, RuntimeError>
    decreases |rows|
  {
    if rows == [] then Success([])
    else match ParseRow(rows[0])
      case Failure(e) => Failure(e)
      case Success(curr) =>
        if prev.temperature != 0 && AtLeast(prev.time, curr.time) then Failure(NotChronological)
        else match CheckRows(curr, rows[1..])
          case Failure(e) => Failure(e)
          case Success(rest) => Success([curr] + rest)
  }

  /** What save writes holds one storable entry per row. */
  lemma {:induction false} CheckRowsStorable(prev: Entry, rows: seq<Row>)
    ensures CheckRows(prev, rows).Success? ==>
      var es := CheckRows(prev, rows).value;
      |es| == |rows| && forall i :: 0 <= i < |es| ==> Storable(es[i])
    decreases |rows|
  {
    if rows != [] && ParseRow(rows[0]).Success? {
      CheckRowsStorable(ParseRow(rows[0]).value, rows[1..]);
    }
  }

  /** The three lines save writes for one entry: a blank line, "HH:MM" and the temperature with a K. */
  function EntryText(e: Entry): seq<string> {
    ["", ToString(e.time), IntToString(e.temperature) + "K"]
  }

  /** The lines of each entry in turn, as render gives them. */
  function LinesOf(render: Entry -> seq<string>, es: seq<Entry>): seq<string>
    decreases |es|
  {
    if es == [] then [] else render(es[0]) + LinesOf(render, es[1..])
  }

  /** The entry lines of the saved file, three per entry in the order of the rows. */
  function EntryLines(es: seq<Entry>): seq<string> {
    LinesOf(EntryText, es)
  }

  /** The lines of the saved file: the header comment, "disabled" when switched off, then the entries. */
  function ConfigLines(enabled: bool, es: seq<Entry>): seq<string> {
    [Header] + (if enabled then [] else ["", "disabled"]) + EntryLines(es)
  }

  /** Lines written one after another, each ended by a newline. */
  function JoinLines(lines: seq<string>): string
    decreases |lines|
  {
    if lines == [] then "" else lines[0] + "\n" + JoinLines(lines[1..])
  }

  /** What save writes, or the runtime_error it reports instead of writing. */
  function SaveText(enabled: bool, rows: seq<Row>): Result<string, RuntimeError> {
    match CheckRows(NoPrev, rows)
    case Failure(e) => Failure(e)
    case Success(es) => Success(JoinLines(ConfigLines(enabled, es)))
  }

  function Prepend(done: seq<Entry>, r: Result<seq<Entry>, RuntimeError>): Result<seq<Entry>, RuntimeError> {
    match r
    case Failure(e) => Failure(e)
    case Success(rest) => Success(done + rest)
  }

  lemma {:induction false} JoinAppend(a: seq<string>, b: seq<string>)
    ensures JoinLines(a + b) == JoinLines(a) + JoinLines(b)
    decreases |a|
  {
    if a != [] {
      JoinAppend(a[1..], b);
      assert (a + b)[1..] == a[1..] + b;
    } else {
      assert a + b == b;
    }
  }

  lemma {:induction false} LinesOfAppend(render: Entry -> seq<string>, es: seq<Entry>, e: Entry)
    ensures LinesOf(render, es + [e]) == LinesOf(render, es) + render(e)
    decreases |es|
  {
    if es != [] {
      var tail := es[1..];
      assert (es + [e])[1..] == tail + [e];
      assert (es + [e])[0] == es[0];
      calc {
        LinesOf(render, es + [e]);
        render(es[0]) + LinesOf(render, tail + [e]);
        { LinesOfAppend(render, tail, e); }
        render(es[0]) + (LinesOf(render, tail) + render(e));
        (render(es[0]) + LinesOf(render, tail)) + render(e);
      }
    } else {
      assert es + [e] == [e];
      assert LinesOf(render, [e]) == render(e) + LinesOf(render, []);
    }
  }

  /** The text of the header part: the header line and, when switched off, "disabled". */
  lemma {:induction false} SavedHeader(enabled: bool)
    ensures JoinLines(ConfigLines(enabled, [])) ==
      Header + "\n" + (if enabled then "" else "\ndisabled\n")
  {
    var head := [Header] + (if enabled then [] else ["", "disabled"]);
    assert ConfigLines(enabled, []) == head + [];
    assert head + [] == head;
    if enabled {
      assert JoinLines(head) == Header + "\n" + JoinLines([]);
    } else {
      assert head[1..] == ["", "disabled"];
      assert head[1..][1..] == ["disabled"];
      assert ["disabled"][1..] == [];
      assert JoinLines(["disabled"]) == "disabled" + "\n" + JoinLines([]);
      assert JoinLines(["", "disabled"]) == "" + "\n" + JoinLines(["disabled"]);
    }
  }

  /** save's two appends for one entry put its three lines after the text so far. */
  lemma {:induction false} EntryTextJoined(output: string, time: string, temperature: string)
    ensures output + "\n" + time + "\n" + temperature + "K\n" == output + JoinLines(["", time, temperature + "K"])
  {
    var lines := ["", time, temperature + "K"];
    assert lines[1..] == [time, temperature + "K"];
    assert lines[1..][1..] == [temperature + "K"];
    assert lines[1..][1..][1..] == [];
    var tail := temperature + "K" + "\n";
    assert JoinLines(lines[1..][1..]) == tail;
    assert JoinLines(lines) == "" + "\n" + (time + "\n" + tail);
  }

  /** Saving one more entry appends its three lines to the text. */
  lemma {:induction false} SavedEntryAppends(enabled: bool, done: seq<Entry>, e: Entry)
    ensures JoinLines(ConfigLines(enabled, done + [e])) ==
      JoinLines(ConfigLines(enabled, done)) + JoinLines(EntryText(e))
  {
    var head := [Header] + (if enabled then [] else ["", "disabled"]);
    assert ConfigLines(enabled, done + [e]) == ConfigLines(enabled, done) + EntryText(e) by {
      LinesOfAppend(EntryText, done, e);
      assert head + (EntryLines(done) + EntryText(e)) == (head + EntryLines(done)) + EntryText(e);
    }
    JoinAppend(ConfigLines(enabled, done), EntryText(e));
  }

  /** The text after save's two appends for curr is the text of one more entry. */
  lemma SaveAppendsEntry(enabled: bool, done: seq<Entry>, curr: Entry, output: string)
    requires output == JoinLines(ConfigLines(enabled, done))
    ensures output + "\n" + ToString(curr.time) + "\n" + IntToString(curr.temperature) + "K\n" ==
      JoinLines(ConfigLines(enabled, done + [curr]))
  {
    EntryTextJoined(output, ToString(curr.time), IntToString(curr.temperature));
    SavedEntryAppends(enabled, done, curr);
  }

  /** One pass of the save loop over a row that parses and is in order. */
  lemma CheckRowsStep(done: seq<Entry>, prev: Entry, rows: seq<Row>, curr: Entry)
    requires rows != [] && ParseRow(rows[0]) == Success(curr)
    requires !(prev.temperature != 0 && AtLeast(prev.time, curr.time))
    ensures Prepend(done, CheckRows(prev, rows)) == Prepend(done + [curr], CheckRows(curr, rows[1..]))
  {
    if CheckRows(curr, rows[1..]).Success? {
      var rest := CheckRows(curr, rows[1..]).value;
      assert done + ([curr] + rest) == (done + [curr]) + rest;
    }
  }

  /** The save loop moves past row i when it parses and is in order. */
  lemma SaveAdvances(done: seq<Entry>, prev: Entry, rows: seq<Row>, i: nat, curr: Entry)
    requires i < |rows| && ParseRow(rows[i]) == Success(curr)
    requires !(prev.temperature != 0 && AtLeast(prev.time, curr.time))
    ensures Prepend(done, CheckRows(prev, rows[i..])) == Prepend(done + [curr], CheckRows(curr, rows[i + 1..]))
  {
    CheckRowsStep(done, prev, rows[i..], curr);
    assert rows[i..][1..] == rows[i + 1..];
  }

  /** save stops at row i with error e when the row does not parse or is not after prev. */
  lemma SaveStopsAt(enabled: bool, done: seq<Entry>, prev: Entry, rows: seq<Row>, i: nat, e: RuntimeError)
    requires i < |rows| && CheckRows(NoPrev, rows) == Prepend(done, CheckRows(prev, rows[i..]))
    requires ParseRow(rows[i]) == Failure(e) ||
      (ParseRow(rows[i]).Success? && prev.temperature != 0 && AtLeast(prev.time, ParseRow(rows[i]).value.time)
       && e == NotChronological)
    ensures SaveText(enabled, rows) == Failure(e)
  {
    assert rows[i..][0] == rows[i];
    assert CheckRows(prev, rows[i..]) == Failure(e);
  }

  /** After the last row save writes the text of all the entries. */
  lemma SaveEnds(enabled: bool, done: seq<Entry>, prev: Entry, rows: seq<Row>)
    requires CheckRows(NoPrev, rows) == Prepend(done, CheckRows(prev, rows[|rows|..]))
    ensures SaveText(enabled, rows) == Success(JoinLines(ConfigLines(enabled, done)))
  {
    assert rows[|rows|..] == [];
    assert done + [] == done;
  }

  /** Before the first row nothing is prepended. */
  lemma SaveStarts(rows: seq<Row>)
    ensures CheckRows(NoPrev, rows) == Prepend([], CheckRows(NoPrev, rows[0..]))
  {
    assert rows[0..] == rows;
    if CheckRows(NoPrev, rows).Success? {
      assert [] + CheckRows(NoPrev, rows).value == CheckRows(NoPrev, rows).value;
    }
  }

  /**
   * save without the widgets and the file: build the text entry by entry,
   * failing on the first row that does not parse or is not later than the
   * one before it.
   */
  method Save(enabled: bool, rows: seq<Row>) returns (r: Result<string, RuntimeError>)
    ensures r == SaveText(enabled, rows)
  {
    var prev := NoPrev;
    var output := Header + "\n";
    if !enabled {
      output := output + "\ndisabled\n";
    }
    SavedHeader(enabled);
    SaveStarts(rows);
    ghost var done: seq<Entry> := [];
    var i := 0;
    while i < |rows|
      invariant 0 <= i <= |rows| && |done| == i
      invariant output == JoinLines(ConfigLines(enabled, done))
      invariant CheckRows(NoPrev, rows) == Prepend(done, CheckRows(prev, rows[i..]))
    {
      var parsed := ParseRow(rows[i]);
      if parsed.Failure? {
        SaveStopsAt(enabled, done, prev, rows, i, parsed.error);
        return Failure(parsed.error);
      }
      var curr := parsed.value;
      if prev.temperature != 0 && AtLeast(prev.time, curr.time) {
        SaveStopsAt(enabled, done, prev, rows, i, NotChronological);
        return Failure(NotChronological);
      }
      SaveAppendsEntry(enabled, done, curr, output);
      SaveAdvances(done, prev, rows, i, curr);
      output := output + "\n" + ToString(curr.time) + "\n";
      output := output + IntToString(curr.temperature) + "K\n";
      prev := curr;
      done := done + [curr];
      i := i + 1;
    }
    SaveEnds(enabled, done, prev, rows);
    r := Success(output);
  }

  // ---------------------------------------------------------------------------
  // What save accepts

  /** The entries the rows stand for, or None when some row does not parse. */
  function ParsedRows(rows: seq<Row>): (r: Option<seq<Entry>>)
    ensures r.Some? ==> |r.value| == |rows|
    decreases |rows|
  {
    if rows == [] then Some([])
    else match ParseRow(rows[0])
      case Failure(_) => None
      case Success(e) =>
        match ParsedRows(rows[1..])
        case None => None
        case Some(es) => Some([e] + es)
  }

  /**
   * The loop of save, from a given prev: it fails when some row does not
   * parse; when every row parses it succeeds exactly when the times are
   * strictly increasing (and start after prev's, unless prev is the "no
   * previous entry" marker), returning the parsed entries, and otherwise
   * fails with "Time entries must be ordered chronologically".
   */
  lemma {:induction false} CheckRowsOrdering(prev: Entry, rows: seq<Row>)
    ensures ParsedRows(rows).None? ==> CheckRows(prev, rows).Failure?
    ensures ParsedRows(rows).Some? ==>
      var es := ParsedRows(rows).value;
      && (CheckRows(prev, rows).Success? <==>
          Increasing(es) && (prev.temperature != 0 && es != [] ==> Less(prev.time, es[0].time)))
      && (CheckRows(prev, rows).Success? ==> CheckRows(prev, rows).value == es)
      && (CheckRows(prev, rows).Failure? ==> CheckRows(prev, rows).error == NotChronological)
    decreases |rows|
  {
    if rows != [] && ParseRow(rows[0]).Success? {
      var e := ParseRow(rows[0]).value;
      CheckRowsOrdering(e, rows[1..]);
      if ParsedRows(rows[1..]).Some? {
        IncreasingCons(e, ParsedRows(rows[1..]).value);
      }
    }
  }

  /** A list is increasing when its tail is and its head comes before the tail's head. */
  lemma IncreasingCons(e: Entry, es: seq<Entry>)
    ensures Increasing([e] + es) <==> Increasing(es) && (es != [] ==> Less(e.time, es[0].time))
  {
    var l := [e] + es;
    if Increasing(es) && (es != [] ==> Less(e.time, es[0].time)) {
      forall i | 0 <= i < |l| - 1 ensures Less(l[i].time, l[i + 1].time) {
        if i > 0 {
          assert l[i] == es[i - 1] && l[i + 1] == es[i];
        }
      }
    }
    if Increasing(l) {
      if es != [] {
        assert l[0] == e && l[1] == es[0];
      }
      forall i | 0 <= i < |es| - 1 ensures Less(es[i].time, es[i + 1].time) {
        assert es[i] == l[i + 1] && es[i + 1] == l[i + 2];
      }
    }
  }

  /**
   * save writes the file exactly when every row parses and the times are
   * strictly increasing, and then writes the parsed entries; with every row
   * parsing but out of order it reports "Time entries must be ordered
   * chronologically".
   */
  lemma SaveAccepts(enabled: bool, rows: seq<Row>)
    ensures SaveText(enabled, rows).Success? <==> ParsedRows(rows).Some? && Increasing(ParsedRows(rows).value)
    ensures ParsedRows(rows).Some? && Increasing(ParsedRows(rows).value) ==>
      SaveText(enabled, rows) == Success(JoinLines(ConfigLines(enabled, ParsedRows(rows).value)))
    ensures ParsedRows(rows).Some? && !Increasing(ParsedRows(rows).value) ==>
      SaveText(enabled, rows) == Failure(NotChronological)
  {
    CheckRowsOrdering(NoPrev, rows);
  }
}
