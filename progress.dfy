/** The reading of ffmpeg's output inside `processa_videos`
    (videotools.py:172-227): every line is searched for the length of the
    input ("Duration:") and for the position reached ("frame=" ... "time="),
    and the progress of the file and of the whole batch is reported. */
module Progress {
  import opened Wrappers
  import opened PyStr
  import opened TimeCodec

  const DURATION: string := "Duration:"
  const FRAME: string := "frame="
  const TIME: string := "time="
  const NA: string := "N/A"

  /** A field of one or two ASCII digits whose value is at most `max`. */
  predicate Field(f: string, max: nat) {
    (|f| == 1 && IsDigit(f[0])) || (|f| == 2 && IsDigit(f[0]) && IsDigit(f[1]) && FieldValue(f) <= max)
  }

  function FieldValue(f: string): nat
    requires 1 <= |f| <= 2 && IsDigit(f[0]) && (|f| == 2 ==> IsDigit(f[1]))
  {
    if |f| == 1 then DigitValue(f[0]) else 10 * DigitValue(f[0]) + DigitValue(f[1])
  }

  /** `time.strptime(t, '%H:%M:%S')` followed by `timedelta(...).total_seconds()`:
      the whole text must be hours (0-23), minutes (0-59) and seconds (0-61),
      each of one or two digits, separated by ':'; None is the ValueError. */
  function Strptime(t: string): (r: Option<int>)
    ensures r.Some? ==> 0 <= r.value <= 23 * 3600 + 59 * 60 + 61
  {
    var parts := Split(t, ':');
    if |parts| == 3 && Field(parts[0], 23) && Field(parts[1], 59) && Field(parts[2], 61) then
      Some(3600 * FieldValue(parts[0]) + 60 * FieldValue(parts[1]) + FieldValue(parts[2]))
    else None
  }

  /** The text a "Duration:" line hands to strptime: from the marker, past the
      first space, up to the first '.' (with no '.', `find` answers -1 and the
      slice drops the last character). */
  function DurationField(line: string): string
    requires Contains(line, DURATION)
  {
    DurationTail(line[Find(line, DURATION)..])
  }

  /** What DurationField does once the line is cut at the marker. */
  function DurationTail(tmp: string): string {
    var tmp2 := tmp[Find(tmp, " ") + 1..];
    Slice(tmp2, 0, Find(tmp2, "."))
  }

  /** The text a "frame=" line hands to strptime: from "time=", after its
      '=', up to the first '.'. */
  function FrameField(line: string): string
    requires Contains(line, TIME)
  {
    FrameTail(line[Find(line, TIME)..])
  }

  /** What FrameField does once the line is cut at "time=". */
  function FrameTail(tmp: string): string {
    Slice(tmp, Find(tmp, "=") + 1, Find(tmp, "."))
  }

  /** One progress report: `progressoArquivo` and `progressoTotal`. */
  datatype Observation = Observation(fileFraction: real, batchFraction: real)

  /** `maxSecs` and `curSecs` of the file being converted. */
  datatype FileState = FileState(maxSecs: int, curSecs: int)

  /** After one line: the new state and the reports made, or the
      ZeroDivisionError that ends the processing of the file. */
  datatype StepResult = Next(state: FileState, reports: seq<Observation>) | DivisionByZero

  /** The two fractions, or None where Python divides by zero (the batch
      fraction, over `segundosTotal`, is computed first). */
  function Fractions(st: FileState, concluidos: int, total: int): (r: Option<Observation>)
    ensures r.Some? <==> total != 0 && st.maxSecs != 0
    ensures r.Some? ==> r.value.fileFraction * st.maxSecs as real == st.curSecs as real
    ensures r.Some? ==> r.value.batchFraction * total as real == (concluidos + st.curSecs) as real
  {
    if total == 0 || st.maxSecs == 0 then None
    else Some(Observation(st.curSecs as real / st.maxSecs as real,
                          (concluidos + st.curSecs) as real / total as real))
  }

  /** The report made after every line once both counters are positive. */
  function AfterLine(st: FileState, concluidos: int, total: int, before: seq<Observation>): (r: StepResult)
    ensures Steady(st, total) ==> r.Next?
    ensures r.Next? ==> r.state == st
  {
    if st.curSecs > 0 && st.maxSecs > 0 then
      match Fractions(st, concluidos, total)
      case None => DivisionByZero
      case Some(o) => Next(st, before + [o])
    else Next(st, before)
  }

  /** What strptime makes of a "Duration:" line; "N/A" stands for the
      length of the whole batch. */
  function DurationValue(line: string, total: int): Option<int>
    requires Contains(line, DURATION)
  {
    if Contains(line, NA) then Some(total) else Strptime(DurationField(line))
  }

  /** One iteration of the loop over the lines. Only a "Duration:" line sets
      the length of the file, and, once Steady holds, only such a line can
      divide by zero; no line breaks Steady or makes the position negative. */
  function Step(st: FileState, line: string, concluidos: int, total: int): (r: StepResult)
    ensures Steady(st, total) && !Contains(line, DURATION) ==> r.Next?
    ensures r.Next? && !Contains(line, DURATION) ==> r.state.maxSecs == st.maxSecs
    ensures r.Next? && Steady(st, total) ==> Steady(r.state, total)
    ensures r.Next? && st.curSecs >= 0 ==> r.state.curSecs >= 0
  {
    if Contains(line, DURATION) then
      match DurationValue(line, total)
      case None => AfterLine(st, concluidos, total, [])
      case Some(m) =>
        var st' := st.(maxSecs := m);
        match Fractions(st', concluidos, total)
        case None => DivisionByZero
        case Some(o) => AfterLine(st', concluidos, total, [o])
    else if StartsWith(line, FRAME) && Contains(line, TIME) then
      var parsed := Strptime(FrameField(line));
      var st' := if parsed.Some? then st.(curSecs := parsed.value) else st;
      AfterLine(st', concluidos, total, [])
    else AfterLine(st, concluidos, total, [])
  }

  /** The whole output of one ffmpeg run: the last state and every report
      in order, or, when a line divides by zero, the reports made before it. */
  datatype FeedResult =
    | Fed(state: FileState, reports: seq<Observation>)
    | Aborted(reports: seq<Observation>)

  function Feed(st: FileState, lines: seq<string>, concluidos: int, total: int): FeedResult
    decreases |lines|
  {
    if lines == [] then Fed(st, [])
    else
      match Step(st, lines[0], concluidos, total)
      case DivisionByZero => Aborted([])
      case Next(st', out) => Prepend(out, Feed(st', lines[1..], concluidos, total))
  }

  function Prepend(rs: seq<Observation>, f: FeedResult): FeedResult {
    match f
    case Fed(s, more) => Fed(s, rs + more)
    case Aborted(more) => Aborted(rs + more)
  }

  /** The loop over ffmpeg's lines, starting from `maxSecs = curSecs = 0`. */
  method FeedLines(lines: seq<string>, concluidos: int, total: int)
    returns (maxSecs: int, curSecs: int, reports: seq<Observation>, aborted: bool)
    ensures aborted <==> Feed(FileState(0, 0), lines, concluidos, total).Aborted?
    ensures Feed(FileState(0, 0), lines, concluidos, total).reports == reports
    ensures !aborted ==> Feed(FileState(0, 0), lines, concluidos, total).state == FileState(maxSecs, curSecs)
  {
    maxSecs, curSecs, reports, aborted := 0, 0, [], false;
    var i := 0;
    while i < |lines|
      invariant 0 <= i <= |lines|
      invariant Feed(FileState(0, 0), lines, concluidos, total) ==
                Prepend(reports, Feed(FileState(maxSecs, curSecs), lines[i..], concluidos, total))
    {
      var line := lines[i];
      assert lines[i..][0] == line && lines[i..][1..] == lines[i + 1..];
      var r := Step(FileState(maxSecs, curSecs), line, concluidos, total);
      if r.DivisionByZero? {
        aborted := true;
        return;
      }
      PrependTwice(reports, r.reports, Feed(r.state, lines[i + 1..], concluidos, total));
      reports := reports + r.reports;
      maxSecs, curSecs := r.state.maxSecs, r.state.curSecs;
      i := i + 1;
    }
    assert lines[i..] == [];
  }

  lemma PrependTwice(a: seq<Observation>, b: seq<Observation>, f: FeedResult)
    ensures Prepend(a, Prepend(b, f)) == Prepend(a + b, f)
  {
    assert forall c: seq<Observation> :: a + (b + c) == (a + b) + c;
  }

  /** strptime accepts a zero-padded clock exactly when its hours, minutes
      and seconds are in range, and then yields its number of seconds. */
  lemma StrptimeClock(h: nat, m: nat, s: nat)
    requires h < 100 && m < 100 && s < 100
    ensures Strptime(Clock(h, m, s)).Some? <==> h < 24 && m < 60 && s < 62
    ensures Strptime(Clock(h, m, s)).Some? ==> Strptime(Clock(h, m, s)).value == 3600 * h + 60 * m + s
  {
    var a, b, c := Pad2(h), Pad2(m), Pad2(s);
    SplitThree(a, b, c);
  }

  /** What `seconds_to_time` prints, strptime reads back as the time of day. */
  lemma StrptimeReadsClock(secs: int)
    ensures Strptime(SecondsToTime(secs)) == Some(secs % 86400)
  {
    var d := secs % 86400;
    ClockFields(d);
    StrptimeClock(d / 3600, d % 3600 / 60, d % 60);
  }

  /** The field of "<p>Duration: <t>.<q>" is t, when p holds no 'D' and t no '.'. */
  lemma DurationFieldOf(p: string, t: string, q: string)
    requires 'D' !in p && '.' !in t
    ensures Contains(p + DURATION + " " + t + "." + q, DURATION)
    ensures DurationField(p + DURATION + " " + t + "." + q) == t
  {
    var rest := " " + t + "." + q;
    MarkerCut(p, DURATION, rest);
    assert p + DURATION + " " + t + "." + q == p + DURATION + rest;
    DurationTailOf(t, q);
  }

  /** Cutting a line at the first occurrence of a marker absent from what
      comes before it. */
  lemma MarkerCut(p: string, marker: string, rest: string)
    requires marker != [] && marker[0] !in p
    ensures Contains(p + marker + rest, marker)
    ensures (p + marker + rest)[Find(p + marker + rest, marker)..] == marker + rest
  {
    FindAfterPrefix(p, marker, rest);
    assert (p + marker + rest)[|p|..] == marker + rest;
  }

  lemma DurationTailOf(t: string, q: string)
    requires '.' !in t
    ensures DurationTail(DURATION + (" " + t + "." + q)) == t
  {
    var tmp := DURATION + (" " + t + "." + q);
    var tmp2 := t + ['.'] + q;
    assert tmp == DURATION + [' '] + tmp2;
    FirstSeparator(DURATION, ' ', tmp2);
    assert tmp[|DURATION| + 1..] == tmp2;
    UpToDot(t, q);
  }

  /** The text before the first '.'. */
  lemma UpToDot(t: string, q: string)
    requires '.' !in t
    ensures Slice(t + "." + q, 0, Find(t + "." + q, ".")) == t
  {
    FirstSeparator(t, '.', q);
    assert (t + "." + q)[..|t|] == t;
  }

  /** The field of "<p>time=<t>.<q>" is t, when p holds no 't' and t no '.'. */
  lemma FrameFieldOf(p: string, t: string, q: string)
    requires 't' !in p && '.' !in t
    ensures Contains(p + TIME + t + "." + q, TIME)
    ensures FrameField(p + TIME + t + "." + q) == t
  {
    var rest := t + "." + q;
    MarkerCut(p, TIME, rest);
    assert p + TIME + t + "." + q == p + TIME + rest;
    FrameTailOf(t, q);
  }

  lemma FrameTailOf(t: string, q: string)
    requires '.' !in t
    ensures FrameTail(TIME + (t + "." + q)) == t
  {
    var tmp := TIME + (t + "." + q);
    assert tmp == "time" + ['='] + (t + "." + q);
    FirstSeparator("time", '=', t + "." + q);
    assert tmp == (TIME + t) + ['.'] + q;
    FirstSeparator(TIME + t, '.', q);
    assert tmp[5..5 + |t|] == t;
  }

  /** A "Duration:" line reading "N/A" takes the length of the whole batch
      as the length of the file. */
  lemma NotAvailableUsesTotal(st: FileState, line: string, concluidos: int, total: int)
    requires Contains(line, DURATION) && Contains(line, NA)
    ensures Step(st, line, concluidos, total).Next? <==> total != 0
    ensures Step(st, line, concluidos, total).Next? ==> Step(st, line, concluidos, total).state.maxSecs == total
  {
  }

  /** A "Duration:" line whose time is read divides by zero exactly when
      the batch or the file has no length; otherwise it sets the length of
      the file, leaves the position alone and reports at once. */
  lemma DurationLine(st: FileState, line: string, concluidos: int, total: int)
    requires Contains(line, DURATION) && DurationValue(line, total).Some?
    ensures Step(st, line, concluidos, total).DivisionByZero? <==> total == 0 || DurationValue(line, total).value == 0
    ensures Step(st, line, concluidos, total).Next? ==>
              Step(st, line, concluidos, total).state == st.(maxSecs := DurationValue(line, total).value) &&
              Step(st, line, concluidos, total).reports[0] == Fractions(st.(maxSecs := DurationValue(line, total).value), concluidos, total).value
  {
  }

  /** A "Duration:" line is never read as a position, even when it also
      starts with "frame=" and holds "time=". */
  lemma DurationTakesPrecedence(st: FileState, line: string, concluidos: int, total: int)
    requires Contains(line, DURATION)
    ensures Step(st, line, concluidos, total).Next? ==> Step(st, line, concluidos, total).state.curSecs == st.curSecs
  {
  }

  /** A time strptime rejects leaves both counters as they were. */
  lemma RejectedTimeKeepsState(st: FileState, line: string, concluidos: int, total: int)
    requires Contains(line, DURATION) ==> DurationValue(line, total).None?
    requires !Contains(line, DURATION) && StartsWith(line, FRAME) && Contains(line, TIME) ==> Strptime(FrameField(line)).None?
    ensures Step(st, line, concluidos, total) == AfterLine(st, concluidos, total, [])
  {
  }

  /** A progress line "<p>time=<t>.<q>" sets the position to the time t. */
  lemma FrameLine(st: FileState, p: string, t: string, q: string, concluidos: int, total: int)
    requires StartsWith(p, FRAME) && 't' !in p && '.' !in t
    requires 'D' !in p && 'D' !in t && 'D' !in q
    requires Strptime(t).Some?
    ensures Step(st, p + TIME + t + "." + q, concluidos, total) ==
              AfterLine(st.(curSecs := Strptime(t).value), concluidos, total, [])
  {
    var line := p + TIME + t + "." + q;
    FrameFieldOf(p, t, q);
    assert 'D' !in line;
    AbsentByFirstChar(line, DURATION);
    assert line[..|FRAME|] == p[..|FRAME|];
  }

  /** With 10 of the 30 seconds of the batch done, a file 20 seconds long
      at "time=00:00:10." is reported half done and the batch two thirds. */
  lemma ReportExample(st: FileState, p: string, q: string)
    requires st.maxSecs == 20
    requires StartsWith(p, FRAME) && 't' !in p && 'D' !in p && 'D' !in q
    ensures Step(st, p + TIME + Clock(0, 0, 10) + "." + q, 10, 30) ==
              Next(FileState(20, 10), [Observation(0.5, 2.0 / 3.0)])
  {
    ClockTen();
    ReportAtTen(st, p, Clock(0, 0, 10), q);
  }

  /** "00:00:10" reads as 10 seconds and holds neither '.' nor 'D'. */
  lemma ClockTen()
    ensures Strptime(Clock(0, 0, 10)) == Some(10)
    ensures '.' !in Clock(0, 0, 10) && 'D' !in Clock(0, 0, 10)
  {
    StrptimeClock(0, 0, 10);
    ClockTenText();
  }

  lemma ClockTenText()
    ensures Clock(0, 0, 10) == "00:00:10"
  {
    assert Pad2(0) == "00" && Pad2(10) == "10";
  }

  lemma ReportAtTen(st: FileState, p: string, t: string, q: string)
    requires st.maxSecs == 20
    requires StartsWith(p, FRAME) && 't' !in p && 'D' !in p && 'D' !in q
    requires Strptime(t) == Some(10) && '.' !in t && 'D' !in t
    ensures Step(st, p + TIME + t + "." + q, 10, 30) == Next(FileState(20, 10), [Observation(0.5, 2.0 / 3.0)])
  {
    FrameLine(st, p, t, q, 10, 30);
    ReportAt();
  }

  lemma ReportAt()
    ensures AfterLine(FileState(20, 10), 10, 30, []) == Next(FileState(20, 10), [Observation(0.5, 2.0 / 3.0)])
  {
    assert Fractions(FileState(20, 10), 10, 30) == Some(Observation(0.5, 2.0 / 3.0));
  }

  /** The length of a file is zero or was set while the batch length was
      non-zero: the report after every line then never divides. */
  predicate Steady(st: FileState, total: int) {
    st.maxSecs != 0 ==> total != 0
  }

  /** An ffmpeg output without a "Duration:" line is read to its end. */
  lemma {:induction false} OnlyDurationAborts(st: FileState, lines: seq<string>, concluidos: int, total: int)
    requires Steady(st, total)
    requires forall k :: 0 <= k < |lines| ==> !Contains(lines[k], DURATION)
    ensures Feed(st, lines, concluidos, total).Fed?
    ensures Feed(st, lines, concluidos, total).state.maxSecs == st.maxSecs
    decreases |lines|
  {
    if lines != [] {
      var r := Step(st, lines[0], concluidos, total);
      OnlyDurationAborts(r.state, lines[1..], concluidos, total);
    }
  }

  /** The position never becomes negative: strptime reads no sign. */
  lemma {:induction false} FeedPositionNonNegative(st: FileState, lines: seq<string>, concluidos: int, total: int)
    requires st.curSecs >= 0
    ensures Feed(st, lines, concluidos, total).Fed? ==> Feed(st, lines, concluidos, total).state.curSecs >= 0
    decreases |lines|
  {
    if lines != [] {
      var r := Step(st, lines[0], concluidos, total);
      if r.Next? {
        assert r.state.curSecs >= 0;
        FeedPositionNonNegative(r.state, lines[1..], concluidos, total);
      }
    }
  }
}
