/**
 * The line loop of loadConfigFile: each line has its comment cut at '#' and
 * is trimmed to its first token; blank lines are skipped, "disabled" switches
 * the scheduler off, and otherwise lines alternate between a time and a
 * temperature, each completed pair adding one entry. The first line that does
 * not parse ends the loop with an error naming its line number. A line that
 * does not fit std::getline's 64-byte buffer ends the loop without an error.
 */
module ConfigLoad {
  import opened Wrappers
  import opened Text
  import opened Times
  import opened Parsing
  import opened Resolver
  import opened Config

  /** The longest line, in bytes, that the 64-byte buffer holds with its terminating NUL. */
  const MaxLineLength := 63

  /**
   * The line fits the buffer: std::getline stores at most 63 bytes of it, and a
   * longer line sets failbit. A line is counted in the bytes of its UTF-8 text.
   */
  predicate Fits(line: string) {
    Utf8Length(line) <= MaxLineLength
  }

  /** The loop's locals: the line counter, whether "disabled" was read, a pending time and the entries added. */
  datatype LoadState = LoadState(line: nat, disabled: bool, time: Option<ScheduledTime>, entries: seq<Entry>)

  /** "Error parsing config at line <line>: <error>". */
  datatype LineError = LineError(line: nat, error: RuntimeError)

  /** Where loading leaves the editor: switched off or not, the entries added, and the error reported if any. */
  datatype LoadOutcome = LoadOutcome(disabled: bool, entries: seq<Entry>, error: Option<LineError>)

  const Start := LoadState(0, false, None, [])

  /** One non-blank token: the body of the try block. */
  function Consume(st: LoadState, token: string): Result<LoadState, RuntimeError> {
    if token == "disabled" then Success(st.(disabled := true))
    else if st.time.None? then
      match ParseTime(token)
      case Failure(e) => Failure(e)
      case Success(t) => Success(st.(time := Some(t)))
    else
      match ParseTemperature(token)
      case Failure(e) => Failure(e)
      case Success(n) => Success(st.(time := None, entries := st.entries + [Entry(st.time.value, n)]))
  }

  /** One line read into the buffer: count it, cut the comment, trim, and consume a non-blank token. */
  function Step(st: LoadState, line: string): Result<LoadState, LineError> {
    var st1 := st.(line := st.line + 1);
    var token := LineToken(line);
    if token == [] then Success(st1)
    else match Consume(st1, token)
      case Failure(e) => Failure(LineError(st1.line, e))
      case Success(st2) => Success(st2)
  }

  /** The loop over the remaining lines from the given state: it goes on while the next line fits the buffer. */
  function LoadFrom(lines: seq<string>, st: LoadState): LoadOutcome
    decreases |lines|, 1
  {
    if lines == [] || !Fits(lines[0]) then LoadOutcome(st.disabled, st.entries, None)
    else ReadOn(lines, st)
  }

  /** The loop body on the first remaining line: an error ends the loop, otherwise it goes on with the rest. */
  function ReadOn(lines: seq<string>, st: LoadState): LoadOutcome
    requires lines != []
    decreases |lines|, 0
  {
    match Step(st, lines[0])
      case Failure(e) => LoadOutcome(st.disabled, st.entries, Some(e))
      case Success(st2) => LoadFrom(lines[1..], st2)
  }

  function LoadConfigLines(lines: seq<string>): LoadOutcome {
    LoadFrom(lines, Start)
  }

  /**
   * loadConfigFile over the lines of the file. Each line that fits the buffer
   * is counted, has its comment cut with strchr and is trimmed; a blank token
   * is skipped and any other goes through the try block, whose failure ends
   * the loop with the error reported under the line's number.
   */
  method LoadConfigFile(lines: seq<string>) returns (outcome: LoadOutcome)
    ensures outcome == LoadConfigLines(lines)
  {
    ghost var goal := LoadConfigLines(lines);
    var st := Start;
    var i := 0;
    assert lines[0..] == lines;
    while i < |lines| && Fits(lines[i])
      invariant 0 <= i <= |lines|
      invariant LoadFrom(lines[i..], st) == goal
    {
      var next := st.(line := st.line + 1);
      var buffer := StripComment(lines[i]);
      var start, len := TrimString(buffer);
      var trimmed := buffer[start..start + len];
      if trimmed != [] {
        var tried := Consume(next, trimmed);
        if tried.Failure? {
          LoadRefusesToken(lines, i, st, tried.error);
          return LoadOutcome(st.disabled, st.entries, Some(LineError(next.line, tried.error)));
        }
        LoadConsumesToken(lines, i, st, tried.value);
        next := tried.value;
      } else {
        LoadSkipsLine(lines, i, st);
      }
      st := next;
      i := i + 1;
    }
    LoadEndsAt(lines, i, st);
    outcome := LoadOutcome(st.disabled, st.entries, None);
  }

  /**
   * One line counts itself and adds at most one entry after the ones already
   * read (when it completes a time/temperature pair); a refused line is
   * reported under its own number.
   */
  lemma StepExtends(st: LoadState, line: string)
    ensures var r := Step(st, line);
      && (r.Success? ==> r.value.line == st.line + 1)
      && (r.Success? ==> r.value.entries == st.entries || r.value.entries == st.entries + [r.value.entries[|st.entries|]])
      && (r.Success? ==> |st.entries| <= |r.value.entries| <= |st.entries| + 1)
      && (r.Failure? ==> r.error.line == st.line + 1)
  {
  }

  /** A line i that fits the buffer and that Step refuses ends the loop with that error. */
  lemma LoadFailsAt(lines: seq<string>, i: nat, st: LoadState, e: LineError)
    requires i < |lines| && Fits(lines[i]) && Step(st, lines[i]) == Failure(e)
    ensures LoadFrom(lines[i..], st) == LoadOutcome(st.disabled, st.entries, Some(e))
  {
    var rest := lines[i..];
    assert rest[0] == lines[i];
  }

  /** The loop ends without an error at the end of the file or at a line too long for the buffer. */
  lemma LoadEndsAt(lines: seq<string>, i: nat, st: LoadState)
    requires i <= |lines| && (i == |lines| || !Fits(lines[i]))
    ensures LoadFrom(lines[i..], st) == LoadOutcome(st.disabled, st.entries, None)
  {
    if i < |lines| {
      assert lines[i..][0] == lines[i];
    }
  }

  /** The loop reads line i when it fits the buffer and goes on from where Step leaves it. */
  lemma LoadAdvances(lines: seq<string>, i: nat, st: LoadState, st2: LoadState)
    requires i < |lines| && Fits(lines[i]) && Step(st, lines[i]) == Success(st2)
    ensures LoadFrom(lines[i..], st) == LoadFrom(lines[i + 1..], st2)
  {
    assert lines[i..][0] == lines[i];
    assert lines[i..][1..] == lines[i + 1..];
  }

  /** A line whose token is blank is counted and skipped. */
  lemma LoadSkipsLine(lines: seq<string>, i: nat, st: LoadState)
    requires i < |lines| && Fits(lines[i]) && LineToken(lines[i]) == []
    ensures LoadFrom(lines[i..], st) == LoadFrom(lines[i + 1..], st.(line := st.line + 1))
  {
    StepSkips(st, lines[i]);
    LoadAdvances(lines, i, st, st.(line := st.line + 1));
  }

  /** Step only counts a line whose token is blank. */
  lemma StepSkips(st: LoadState, line: string)
    requires LineToken(line) == []
    ensures Step(st, line) == Success(st.(line := st.line + 1))
  {
  }

  /** A line whose token the try block accepts goes on from the state the try block leaves. */
  lemma LoadConsumesToken(lines: seq<string>, i: nat, st: LoadState, st2: LoadState)
    requires i < |lines| && Fits(lines[i]) && LineToken(lines[i]) != []
    requires Consume(st.(line := st.line + 1), LineToken(lines[i])) == Success(st2)
    ensures LoadFrom(lines[i..], st) == LoadFrom(lines[i + 1..], st2)
  {
    StepAccepts(st, lines[i], st2);
    LoadAdvances(lines, i, st, st2);
  }

  /** Step leaves the state the try block leaves when it accepts the line's token. */
  lemma StepAccepts(st: LoadState, line: string, st2: LoadState)
    requires LineToken(line) != [] && Consume(st.(line := st.line + 1), LineToken(line)) == Success(st2)
    ensures Step(st, line) == Success(st2)
  {
  }

  /** A line whose token the try block refuses ends the loop with the error under the line's number. */
  lemma LoadRefusesToken(lines: seq<string>, i: nat, st: LoadState, e: RuntimeError)
    requires i < |lines| && Fits(lines[i]) && LineToken(lines[i]) != []
    requires Consume(st.(line := st.line + 1), LineToken(lines[i])) == Failure(e)
    ensures LoadFrom(lines[i..], st) == LoadOutcome(st.disabled, st.entries, Some(LineError(st.line + 1, e)))
  {
    StepRefuses(st, lines[i], e);
    LoadFailsAt(lines, i, st, LineError(st.line + 1, e));
  }

  /** Step reports the try block's error under the number of the line. */
  lemma StepRefuses(st: LoadState, line: string, e: RuntimeError)
    requires LineToken(line) != [] && Consume(st.(line := st.line + 1), LineToken(line)) == Failure(e)
    ensures Step(st, line) == Failure(LineError(st.line + 1, e))
  {
  }

  // ---------------------------------------------------------------------------
  // Properties of the loop

  /** Loading only appends entries, each with a valid time and a temperature in range. */
  lemma {:induction false} LoadAddsStorableEntries(lines: seq<string>, st: LoadState)
    requires forall i :: 0 <= i < |st.entries| ==> Storable(st.entries[i])
    requires st.time.Some? ==> ValidTime(st.time.value)
    ensures var r := LoadFrom(lines, st);
      && |st.entries| <= |r.entries| && r.entries[..|st.entries|] == st.entries
      && forall i :: 0 <= i < |r.entries| ==> Storable(r.entries[i])
    decreases |lines|
  {
    if lines != [] && Fits(lines[0]) && Step(st, lines[0]).Success? {
      var st2 := Step(st, lines[0]).value;
      StepExtends(st, lines[0]);
      StepKeepsStorable(st, lines[0]);
      LoadAddsStorableEntries(lines[1..], st2);
      var r := LoadFrom(lines[1..], st2);
      assert r.entries[..|st.entries|] == r.entries[..|st2.entries|][..|st.entries|];
    }
  }

  /** One line adds at most one entry, parsed from a time and a temperature line. */
  lemma StepKeepsStorable(st: LoadState, line: string)
    requires forall i :: 0 <= i < |st.entries| ==> Storable(st.entries[i])
    requires st.time.Some? ==> ValidTime(st.time.value)
    ensures Step(st, line).Success? ==>
      var st2 := Step(st, line).value;
      && (forall i :: 0 <= i < |st2.entries| ==> Storable(st2.entries[i]))
      && (st2.time.Some? ==> ValidTime(st2.time.value))
  {
    if Step(st, line).Success? {
      var st2 := Step(st, line).value;
      StepExtends(st, line);
      if |st2.entries| > |st.entries| {
        assert st2.entries == st.entries + [st2.entries[|st.entries|]];
      } else {
        assert st2.entries == st.entries;
      }
    }
  }

  /** Loading stops at the first error: lines after it are never read. */
  lemma {:induction false} LoadStopsAtError(lines: seq<string>, more: seq<string>, st: LoadState)
    requires LoadFrom(lines, st).error.Some?
    ensures LoadFrom(lines + more, st) == LoadFrom(lines, st)
    decreases |lines|
  {
    assert (lines + more)[0] == lines[0];
    assert (lines + more)[1..] == lines[1..] + more;
    if Step(st, lines[0]).Success? {
      LoadStopsAtError(lines[1..], more, Step(st, lines[0]).value);
    }
  }

  /**
   * The reported line number counts every line read, blank ones included:
   * it names a line of the input, short enough for the buffer, whose token
   * is not blank and is refused with the error reported.
   */
  lemma {:induction false} LoadErrorLine(lines: seq<string>, st: LoadState)
    requires LoadFrom(lines, st).error.Some?
    ensures ErrorAt(lines, st.line, LoadFrom(lines, st).error.value.line)
    decreases |lines|, 1
  {
    assert lines != [] && Fits(lines[0]);
    var r := Step(st, lines[0]);
    if r.Success? {
      StepExtends(st, lines[0]);
      LoadAdvances(lines, 0, st, r.value);
      assert lines[1..] == lines[0 + 1..];
      ErrorAfterLine(lines, st, r.value);
    } else {
      ErrorAtLine(lines, st, r.error);
    }
  }

  /** The first line is refused: the error names it. */
  lemma ErrorAtLine(lines: seq<string>, st: LoadState, e: LineError)
    requires lines != [] && Fits(lines[0]) && Step(st, lines[0]) == Failure(e)
    ensures LoadFrom(lines, st).error == Some(e)
    ensures ErrorAt(lines, st.line, e.line)
  {
    assert lines[0..] == lines;
    StepExtends(st, lines[0]);
    StepRefusesTokens(st, lines[0]);
    LoadFailsAt(lines, 0, st, e);
  }

  /** The first line is read: the error comes from the rest, one line further on. */
  lemma ErrorAfterLine(lines: seq<string>, st: LoadState, st2: LoadState)
    requires lines != [] && st2.line == st.line + 1 && LoadFrom(lines, st) == LoadFrom(lines[1..], st2)
    requires LoadFrom(lines, st).error.Some?
    ensures ErrorAt(lines, st.line, LoadFrom(lines, st).error.value.line)
    decreases |lines|, 0
  {
    LoadErrorLine(lines[1..], st2);
    ErrorShift(lines, st.line, LoadFrom(lines, st).error.value.line);
  }

  /** Line n, counted from base, exists, fits the buffer and holds a token. */
  predicate ErrorAt(lines: seq<string>, base: nat, n: nat) {
    && base < n <= base + |lines|
    && Fits(lines[n - base - 1])
    && LineToken(lines[n - base - 1]) != []
  }

  lemma ErrorShift(lines: seq<string>, base: nat, n: nat)
    requires lines != [] && ErrorAt(lines[1..], base + 1, n)
    ensures ErrorAt(lines, base, n)
  {
    assert lines[1..][n - (base + 1) - 1] == lines[n - base - 1];
  }

  /** Only a line with a token can be refused. */
  lemma StepRefusesTokens(st: LoadState, line: string)
    ensures Step(st, line).Failure? ==> LineToken(line) != []
  {
  }

  /** A line too long for the buffer ends loading: nothing from it on is read. */
  lemma {:induction false} LongLineEndsLoad(lines: seq<string>, k: nat, st: LoadState)
    requires k < |lines| && !Fits(lines[k])
    ensures LoadFrom(lines, st) == LoadFrom(lines[..k], st)
    decreases k
  {
    assert lines[0..] == lines;
    if k == 0 {
      LoadEndsAt(lines, 0, st);
      assert lines[..0] == [];
    } else {
      var prefix := lines[..k];
      assert prefix[0] == lines[0] && prefix[0..] == prefix;
      if !Fits(lines[0]) {
        LoadEndsAt(lines, 0, st);
        LoadEndsAt(prefix, 0, st);
      } else {
        LongLineStep(lines, k, st);
      }
    }
  }

  /** The first line fits the buffer: both loads read it alike and go on with the rest. */
  lemma LongLineStep(lines: seq<string>, k: nat, st: LoadState)
    requires 0 < k < |lines| && !Fits(lines[k]) && Fits(lines[0])
    ensures LoadFrom(lines, st) == LoadFrom(lines[..k], st)
    decreases k, 1
  {
    var r := Step(st, lines[0]);
    if r.Failure? {
      LongLineRefused(lines, k, st, r.error);
    } else {
      LongLineRead(lines, k, st, r.value);
    }
  }

  lemma LongLineRefused(lines: seq<string>, k: nat, st: LoadState, e: LineError)
    requires 0 < k < |lines| && Fits(lines[0]) && Step(st, lines[0]) == Failure(e)
    ensures LoadFrom(lines, st) == LoadFrom(lines[..k], st)
  {
    var prefix := lines[..k];
    assert lines[0..] == lines;
    assert prefix[0] == lines[0] && prefix[0..] == prefix;
    LoadFailsAt(lines, 0, st, e);
    LoadFailsAt(prefix, 0, st, e);
  }

  lemma LongLineRead(lines: seq<string>, k: nat, st: LoadState, st2: LoadState)
    requires 0 < k < |lines| && !Fits(lines[k]) && Fits(lines[0]) && Step(st, lines[0]) == Success(st2)
    ensures LoadFrom(lines, st) == LoadFrom(lines[..k], st)
    decreases k, 0
  {
    var prefix := lines[..k];
    assert lines[0..] == lines;
    assert prefix[0] == lines[0] && prefix[0..] == prefix;
    assert prefix[1..] == lines[1..][..k - 1];
    LoadAdvances(lines, 0, st, st2);
    LoadAdvances(prefix, 0, st, st2);
    LongLineEndsLoad(lines[1..], k - 1, st2);
  }

  // ---------------------------------------------------------------------------
  // Reading back what save writes

  /** The lines std::getline delivers from a text, without their newlines; a final newline starts no line. */
  function SplitLines(text: string): (lines: seq<string>)
    ensures NoNewlines(lines)
    ensures text != [] <==> lines != []
    decreases |text|
  {
    if text == [] then []
    else
      var k := IndexOf(text, '\n');
      if k == |text| then [text] else [text[..k]] + SplitLines(text[k + 1..])
  }

  predicate NoNewline(line: string) {
    forall j :: 0 <= j < |line| ==> line[j] != '\n'
  }

  predicate NoNewlines(lines: seq<string>) {
    forall i :: 0 <= i < |lines| ==> NoNewline(lines[i])
  }

  lemma NoNewlinesAppend(a: seq<string>, b: seq<string>)
    requires NoNewlines(a) && NoNewlines(b)
    ensures NoNewlines(a + b)
  {
    forall i | 0 <= i < |a + b| ensures NoNewline((a + b)[i]) {
      if i >= |a| {
        assert (a + b)[i] == b[i - |a|];
      } else {
        assert (a + b)[i] == a[i];
      }
    }
  }

  /** Splitting undoes joining, for lines without newlines. */
  lemma {:induction false} SplitJoin(lines: seq<string>)
    requires NoNewlines(lines)
    ensures SplitLines(JoinLines(lines)) == lines
    decreases |lines|
  {
    if lines != [] {
      var text := JoinLines(lines);
      var rest := JoinLines(lines[1..]);
      assert text == lines[0] + "\n" + rest;
      assert text[|lines[0]|] == '\n';
      assert IndexOf(text, '\n') == |lines[0]|;
      assert text[..|lines[0]|] == lines[0];
      assert text[|lines[0]| + 1..] == rest;
      SplitJoin(lines[1..]);
    }
  }

  lemma TimeTextIsPlain(t: ScheduledTime)
    requires ValidTime(t)
    ensures PlainWord(ToString(t)) && |ToString(t)| == 5 && NoNewline(ToString(t))
  {
    var s := ToString(t);
    forall j | 0 <= j < |s| ensures IsDigit(s[j]) || s[j] == ':' {
      if j < 2 {
        assert s[j] == s[..2][j];
      } else if j > 2 {
        assert s[j] == s[3..][j - 3];
      }
    }
  }

  lemma TemperatureTextIsPlain(n: int)
    requires MinTemperature <= n <= MaxTemperature
    ensures PlainWord(IntToString(n) + "K") && |IntToString(n) + "K"| <= 6 && NoNewline(IntToString(n) + "K")
    ensures IntToString(n) + "K" != "disabled"
  {
    NatToStringLength(n, 5);
    var s := IntToString(n) + "K";
    forall j | 0 <= j < |s| ensures IsDigit(s[j]) || s[j] == 'K' {
      if j < |s| - 1 {
        assert s[j] == IntToString(n)[j];
      }
    }
    assert s[|s| - 1] == 'K';
  }

  /** The loop reads one line that fits the buffer and goes on from the state it leads to. */
  lemma LoadLine(line: string, rest: seq<string>, st: LoadState, st2: LoadState)
    requires Fits(line) && Step(st, line) == Success(st2)
    ensures LoadFrom([line] + rest, st) == LoadFrom(rest, st2)
  {
    assert ([line] + rest)[0] == line;
    assert ([line] + rest)[1..] == rest;
  }

  lemma StepBlank(st: LoadState, line: string)
    requires LineToken(line) == []
    ensures Step(st, line) == Success(st.(line := st.line + 1))
  {
  }

  lemma BlankLines()
    ensures LineToken("") == [] && LineToken(Header) == []
  {
    EmptyToken();
    assert Header[0] == '#';
    assert IndexOf(Header, '#') == 0;
    assert StripComment(Header) == "";
  }

  lemma EmptyToken()
    ensures LineToken("") == []
  {
    assert IndexOf("", '#') == 0;
    assert StripComment("") == "";
    assert TokenStart("", 0) == 0;
  }

  lemma StepTime(st: LoadState, t: ScheduledTime)
    requires ValidTime(t) && st.time.None?
    ensures Step(st, ToString(t)) == Success(st.(line := st.line + 1, time := Some(t)))
  {
    TimeTextIsPlain(t);
    LineTokenOfPlainWord(ToString(t));
    ParseTimeOfToString(t);
    assert |ToString(t)| != |"disabled"|;
  }

  lemma StepTemperature(st: LoadState, n: int)
    requires MinTemperature <= n <= MaxTemperature && st.time.Some?
    ensures Step(st, IntToString(n) + "K") ==
      Success(st.(line := st.line + 1, time := None, entries := st.entries + [Entry(st.time.value, n)]))
  {
    TemperatureTextIsPlain(n);
    LineTokenOfPlainWord(IntToString(n) + "K");
    ParseTemperatureOfString(n);
  }

  /** Loading one entry's three lines as save writes them adds that entry. */
  lemma LoadEntryText(e: Entry, rest: seq<string>, st: LoadState)
    requires Storable(e) && st.time.None?
    ensures LoadFrom(EntryText(e) + rest, st) == LoadFrom(rest, AddedEntries(st, [e]))
  {
    var t := ToString(e.time);
    var n := IntToString(e.temperature) + "K";
    TimeTextIsPlain(e.time);
    TemperatureTextIsPlain(e.temperature);
    assert EntryText(e) + rest == [""] + ([t] + ([n] + rest));
    var st1 := st.(line := st.line + 1);
    var st2 := st1.(line := st1.line + 1, time := Some(e.time));
    var st3 := st2.(line := st2.line + 1, time := None, entries := st.entries + [e]);
    assert st3 == AddedEntries(st, [e]);
    calc {
      LoadFrom(EntryText(e) + rest, st);
      LoadFrom([""] + ([t] + ([n] + rest)), st);
      { EmptyToken(); StepBlank(st, ""); LoadLine("", [t] + ([n] + rest), st, st1); }
      LoadFrom([t] + ([n] + rest), st1);
      { StepTime(st1, e.time); LoadLine(t, [n] + rest, st1, st2); }
      LoadFrom([n] + rest, st2);
      { StepTemperature(st2, e.temperature); LoadLine(n, rest, st2, st3); }
      LoadFrom(rest, st3);
    }
  }

  /** Loading the entry lines save writes adds exactly those entries. */
  lemma {:induction false} LoadEntryLines(es: seq<Entry>, rest: seq<string>, st: LoadState)
    requires forall i :: 0 <= i < |es| ==> Storable(es[i])
    requires st.time.None?
    ensures LoadFrom(EntryLines(es) + rest, st) == LoadFrom(rest, AddedEntries(st, es))
    decreases |es|
  {
    if es == [] {
      LoadNoEntries(rest, st);
    } else {
      var st' := AddedEntries(st, [es[0]]);
      LoadEntryLines(es[1..], rest, st');
      LoadFirstEntry(es, rest, st);
      AddedEntriesSplit(st, es);
    }
  }

  /** The state after reading the three lines of each of es. */
  function AddedEntries(st: LoadState, es: seq<Entry>): LoadState {
    st.(line := st.line + 3 * |es|, entries := st.entries + es)
  }

  lemma LoadNoEntries(rest: seq<string>, st: LoadState)
    ensures LoadFrom(EntryLines([]) + rest, st) == LoadFrom(rest, AddedEntries(st, []))
  {
    assert EntryLines([]) + rest == rest;
    assert st.entries + [] == st.entries;
  }

  lemma AddedEntriesSplit(st: LoadState, es: seq<Entry>)
    requires es != []
    ensures AddedEntries(AddedEntries(st, [es[0]]), es[1..]) == AddedEntries(st, es)
  {
    assert (st.entries + [es[0]]) + es[1..] == st.entries + es;
  }

  lemma LoadFirstEntry(es: seq<Entry>, rest: seq<string>, st: LoadState)
    requires es != [] && Storable(es[0]) && st.time.None?
    ensures LoadFrom(EntryLines(es) + rest, st) == LoadFrom(EntryLines(es[1..]) + rest, AddedEntries(st, [es[0]]))
  {
    EntryLinesCons(es, rest);
    LoadEntryText(es[0], EntryLines(es[1..]) + rest, st);
  }

  lemma EntryLinesCons(es: seq<Entry>, rest: seq<string>)
    requires es != []
    ensures EntryLines(es) + rest == EntryText(es[0]) + (EntryLines(es[1..]) + rest)
  {
  }

  /** The header comment, and "disabled" when switched off, load as no entry. */
  lemma LoadHeader(enabled: bool, rest: seq<string>, st: LoadState)
    ensures LoadFrom(ConfigLines(enabled, []) + rest, st) ==
      LoadFrom(rest, st.(line := st.line + (if enabled then 1 else 3), disabled := st.disabled || !enabled))
  {
    var tail := if enabled then rest else [""] + (["disabled"] + rest);
    assert ConfigLines(enabled, []) + rest == [Header] + tail;
    LoadHeaderLine(tail, st);
    if !enabled {
      LoadDisabledLines(rest, st.(line := st.line + 1));
    }
  }

  /** The header comment line only moves the line counter. */
  lemma LoadHeaderLine(rest: seq<string>, st: LoadState)
    ensures LoadFrom([Header] + rest, st) == LoadFrom(rest, st.(line := st.line + 1))
  {
    BlankLines();
    HeaderFits();
    LoadBlankLine(Header, rest, st);
  }

  /** A line that fits the buffer and has no token only moves the line counter. */
  lemma LoadBlankLine(line: string, rest: seq<string>, st: LoadState)
    requires Fits(line) && LineToken(line) == []
    ensures LoadFrom([line] + rest, st) == LoadFrom(rest, st.(line := st.line + 1))
  {
    StepBlank(st, line);
    LoadLine(line, rest, st, st.(line := st.line + 1));
  }

  /** The blank line and the "disabled" line save writes for a switched-off scheduler. */
  lemma LoadDisabledLines(rest: seq<string>, st: LoadState)
    ensures LoadFrom([""] + (["disabled"] + rest), st) ==
      LoadFrom(rest, st.(line := st.line + 2, disabled := true))
  {
    EmptyToken();
    LoadBlankLine("", ["disabled"] + rest, st);
    var st1 := st.(line := st.line + 1);
    StepDisabled(st1);
    LoadLine("disabled", rest, st1, st1.(line := st1.line + 1, disabled := true));
  }

  lemma StepDisabled(st: LoadState)
    ensures Step(st, "disabled") == Success(st.(line := st.line + 1, disabled := true))
  {
    DisabledToken();
  }

  lemma DisabledToken()
    ensures LineToken("disabled") == "disabled"
  {
    assert StripComment("disabled") == "disabled";
  }

  /** The text save writes, read from any state without a pending time, adds its entries and its switch. */
  lemma LoadSavedLines(enabled: bool, es: seq<Entry>, st: LoadState)
    requires forall i :: 0 <= i < |es| ==> Storable(es[i])
    requires st.time.None?
    ensures LoadFrom(SplitLines(JoinLines(ConfigLines(enabled, es))), st) ==
      LoadOutcome(st.disabled || !enabled, st.entries + es, None)
  {
    SplitSaved(enabled, es);
    LoadConfigLinesFrom(enabled, es, st);
  }

  /** Splitting the saved text gives back the lines save joined. */
  lemma SplitSaved(enabled: bool, es: seq<Entry>)
    requires forall i :: 0 <= i < |es| ==> Storable(es[i])
    ensures SplitLines(JoinLines(ConfigLines(enabled, es))) == ConfigLines(enabled, es)
  {
    ConfigLinesHaveNoNewline(enabled, es);
    SplitJoin(ConfigLines(enabled, es));
  }

  lemma LoadConfigLinesFrom(enabled: bool, es: seq<Entry>, st: LoadState)
    requires forall i :: 0 <= i < |es| ==> Storable(es[i])
    requires st.time.None?
    ensures LoadFrom(ConfigLines(enabled, es), st) == LoadOutcome(st.disabled || !enabled, st.entries + es, None)
  {
    var st' := st.(line := st.line + (if enabled then 1 else 3), disabled := st.disabled || !enabled);
    calc {
      LoadFrom(ConfigLines(enabled, es), st);
      { ConfigLinesSplit(enabled, es); }
      LoadFrom(ConfigLines(enabled, []) + (EntryLines(es) + []), st);
      { LoadHeader(enabled, EntryLines(es) + [], st); }
      LoadFrom(EntryLines(es) + [], st');
      { LoadEntryLines(es, [], st'); }
      LoadFrom([], AddedEntries(st', es));
    }
  }

  lemma ConfigLinesSplit(enabled: bool, es: seq<Entry>)
    ensures ConfigLines(enabled, es) == ConfigLines(enabled, []) + (EntryLines(es) + [])
  {
    assert EntryLines([]) == [];
  }

  /**
   * Round trip: reading back the text save writes for storable entries gives
   * those entries, the switch as it was, and no error.
   */
  lemma LoadSavedText(enabled: bool, es: seq<Entry>)
    requires forall i :: 0 <= i < |es| ==> Storable(es[i])
    ensures LoadConfigLines(SplitLines(JoinLines(ConfigLines(enabled, es)))) == LoadOutcome(!enabled, es, None)
  {
    LoadSavedLines(enabled, es, Start);
    assert Start.entries + es == es;
  }

  lemma HeaderIsOneLine()
    ensures NoNewline(Header)
  {
  }

  /** The header comment is ASCII text, so its 39 characters are 39 bytes and fit the buffer. */
  lemma HeaderFits()
    ensures Fits(Header)
  {
    assert IsAscii(Header);
  }

  lemma ConfigLinesHaveNoNewline(enabled: bool, es: seq<Entry>)
    requires forall i :: 0 <= i < |es| ==> Storable(es[i])
    ensures NoNewlines(ConfigLines(enabled, es))
  {
    var head := [Header] + (if enabled then [] else ["", "disabled"]);
    HeaderIsOneLine();
    assert NoNewline("disabled") by {
      assert IndexOf("disabled", '\n') == |"disabled"|;
    }
    assert NoNewlines(head);
    EntryLinesHaveNoNewline(es);
    NoNewlinesAppend(head, EntryLines(es));
  }

  lemma {:induction false} EntryLinesHaveNoNewline(es: seq<Entry>)
    requires forall i :: 0 <= i < |es| ==> Storable(es[i])
    ensures NoNewlines(EntryLines(es))
    decreases |es|
  {
    if es != [] {
      EntryTextHasNoNewline(es[0]);
      EntryLinesHaveNoNewline(es[1..]);
      EntryLinesCons(es, []);
      assert EntryLines(es) == EntryText(es[0]) + EntryLines(es[1..]);
      NoNewlinesAppend(EntryText(es[0]), EntryLines(es[1..]));
    }
  }

  lemma EntryTextHasNoNewline(e: Entry)
    requires Storable(e)
    ensures NoNewlines(EntryText(e))
  {
    TimeTextIsPlain(e.time);
    TemperatureTextIsPlain(e.temperature);
  }

  /**
   * What save writes, loadConfigFile reads back: the rows' entries, in order,
   * with the switch as it was and no error.
   */
  lemma SaveThenLoad(enabled: bool, rows: seq<Row>)
    requires SaveText(enabled, rows).Success?
    ensures LoadConfigLines(SplitLines(SaveText(enabled, rows).value)) ==
      LoadOutcome(!enabled, CheckRows(NoPrev, rows).value, None)
  {
    CheckRowsStorable(NoPrev, rows);
    LoadSavedText(enabled, CheckRows(NoPrev, rows).value);
  }
}
