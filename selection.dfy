/** The small rules of the main window and of the extraction dialog
    (videotools.py): which names are videos (`is_video`), the counter and
    the buttons of the selection (`do_atualiza_contador_selecao`), the
    length of the selected videos (`obter_total_segundos`), the order of
    the grid (`compareTreeItem`) and the check of an interval to extract
    (`ExtrairDialog.do_valida_campos`). */
module Selection {
  import opened Wrappers
  import opened PyStr
  import opened TimeCodec

  /** The `extensoes_video` setting written when no settings file exists:
      "wmv|avi|mpg|3gp|mov|m4v|mts|mp4|webm". */
  const DEFAULT_ENTRIES: seq<string> := ["wmv", "avi", "mpg", "3gp", "mov", "m4v", "mts", "mp4", "webm"]
  const DEFAULT_VIDEO_EXTENSIONS: string := Join(DEFAULT_ENTRIES, '|')

  /** The loop of `is_video` over the entries of the setting: some entry,
      lower-cased, ends the (lower-cased) name. */
  function MatchesAny(name: string, exts: seq<string>): (r: bool)
    ensures r <==> exists k :: 0 <= k < |exts| && EndsWith(name, Lower(exts[k]))
    decreases |exts|
  {
    if exts == [] then false
    else
      assert forall k :: 1 <= k < |exts| ==> exts[k] == exts[1..][k - 1];
      EndsWith(name, Lower(exts[0])) || MatchesAny(name, exts[1..])
  }

  /** `is_video(arquivo)` with the setting `extensoes`: some entry of the
      setting, lower-cased, ends the lower-cased name. */
  function IsVideo(arquivo: string, extensoes: string): (r: bool)
    ensures r <==> exists k :: 0 <= k < |Split(extensoes, '|')| &&
                              EndsWith(Lower(arquivo), Lower(Split(extensoes, '|')[k]))
  {
    var exts := Split(extensoes, '|');
    assert forall k :: 0 <= k < |exts| ==> Split(extensoes, '|')[k] == exts[k];
    MatchesAny(Lower(arquivo), exts)
  }

  /** With the setting written as the entries joined by '|', a name is a
      video exactly when one of the entries ends it, ignoring the case of
      ASCII letters. */
  lemma ListedExtensions(arquivo: string, exts: seq<string>)
    requires |exts| >= 1 && forall k :: 0 <= k < |exts| ==> '|' !in exts[k]
    ensures IsVideo(arquivo, Join(exts, '|')) <==>
              exists k :: 0 <= k < |exts| && EndsWith(Lower(arquivo), Lower(exts[k]))
  {
    SplitJoin(exts, '|');
  }

  /** An empty entry (as in "mp4||avi") makes every name a video. */
  lemma EmptyEntryMatchesEverything(arquivo: string, exts: seq<string>, k: nat)
    requires |exts| >= 1 && forall j :: 0 <= j < |exts| ==> '|' !in exts[j]
    requires k < |exts| && exts[k] == ""
    ensures IsVideo(arquivo, Join(exts, '|'))
  {
    ListedExtensions(arquivo, exts);
    assert EndsWith(Lower(arquivo), Lower(exts[k]));
  }

  /** The case of the name does not matter. */
  lemma CaseDoesNotMatter(arquivo: string, extensoes: string)
    ensures IsVideo(Lower(arquivo), extensoes) == IsVideo(arquivo, extensoes)
  {
    LowerTwice(arquivo);
  }

  lemma LowerTwice(s: string)
    ensures Lower(Lower(s)) == Lower(s)
  {
    assert forall k :: 0 <= k < |s| ==> LowerChar(LowerChar(s[k])) == LowerChar(s[k]);
  }

  /** With the default setting "<p>.MP4" is a video: the comparison ignores
      case. */
  lemma UpperCaseMp4IsVideo(p: string)
    ensures IsVideo(p + ".MP4", DEFAULT_VIDEO_EXTENSIONS)
  {
    ListedExtensions(p + ".MP4", DEFAULT_ENTRIES);
    EndsWithMp4(p);
    assert DEFAULT_ENTRIES[7] == "mp4";
  }

  lemma EndsWithMp4(p: string)
    ensures EndsWith(Lower(p + ".MP4"), Lower("mp4"))
  {
    var n := Lower(p + ".MP4");
    assert Lower("mp4") == "mp4";
    assert n[|n| - 3..] == "mp4" by {
      assert n[|n| - 3] == LowerChar('M') && n[|n| - 2] == LowerChar('P') && n[|n| - 1] == LowerChar('4');
    }
  }

  /** A row of the grid: the "Processar" mark, the name relative to the
      source directory, the size as shown and the details from ffmpeg. */
  datatype Row = Row(selected: bool, name: string, size: string, detail: string)

  /** `row[3][10:18]`: the clock after "Duration: " in the details. */
  function RowSeconds(row: Row): int {
    TimeToSeconds(Slice(row.detail, 10, 18))
  }

  /** `obter_total_segundos()`: the seconds of every selected row. */
  function TotalSeconds(rows: seq<Row>): int
    decreases |rows|
  {
    if rows == [] then 0
    else
      var last := rows[|rows| - 1];
      TotalSeconds(rows[..|rows| - 1]) + (if last.selected then RowSeconds(last) else 0)
  }

  /** The loop of `obter_total_segundos`. */
  method ObterTotalSegundos(rows: seq<Row>) returns (segundos: int)
    ensures segundos == TotalSeconds(rows)
  {
    segundos := 0;
    var i := 0;
    while i < |rows|
      invariant 0 <= i <= |rows|
      invariant segundos == TotalSeconds(rows[..i])
    {
      assert rows[..i + 1][..i] == rows[..i];
      if rows[i].selected {
        segundos := segundos + RowSeconds(rows[i]);
      }
      i := i + 1;
    }
    assert rows[..i] == rows;
  }

  /** The total of two parts of the grid is the sum of their totals. */
  lemma {:induction false} TotalSecondsAppend(a: seq<Row>, b: seq<Row>)
    ensures TotalSeconds(a + b) == TotalSeconds(a) + TotalSeconds(b)
    decreases |b|
  {
    if b == [] {
      assert a + b == a;
    } else {
      var ab := a + b;
      assert ab[..|ab| - 1] == a + b[..|b| - 1];
      assert ab[|ab| - 1] == b[|b| - 1];
      TotalSecondsAppend(a, b[..|b| - 1]);
    }
  }

  /** Rows that are not selected add nothing. */
  lemma {:induction false} NothingSelected(rows: seq<Row>)
    requires forall k :: 0 <= k < |rows| ==> !rows[k].selected
    ensures TotalSeconds(rows) == 0
    decreases |rows|
  {
    if rows != [] {
      NothingSelected(rows[..|rows| - 1]);
    }
  }

  /** Details starting "Duration: HH:MM:SS" give the seconds of that clock. */
  lemma DetailSeconds(row: Row, h: nat, m: nat, s: nat, rest: string)
    requires h < 100 && m < 100 && s < 100
    requires row.detail == "Duration: " + Clock(h, m, s) + rest
    ensures RowSeconds(row) == 3600 * h + 60 * m + s
  {
    var t := Clock(h, m, s);
    assert row.detail[10..18] == t;
    ClockSeconds(h, m, s);
  }

  /** The path `is_video` and `os.stat` are given for a row. */
  function PathOf(dir: string, row: Row): string {
    dir + "/" + row.name
  }

  /** What the counter shows: the selected videos, their bytes and their
      seconds. */
  datatype Tally = Tally(count: nat, bytes: nat, seconds: int)

  /** The selected rows that are videos, with the size of each file. */
  function Tallied(dir: string, extensoes: string, rows: seq<Row>, sizes: seq<nat>): Tally
    requires |sizes| == |rows|
    decreases |rows|
  {
    if rows == [] then Tally(0, 0, 0)
    else
      var n := |rows| - 1;
      var before := Tallied(dir, extensoes, rows[..n], sizes[..n]);
      if rows[n].selected && IsVideo(PathOf(dir, rows[n]), extensoes) then
        Tally(before.count + 1, before.bytes + sizes[n], before.seconds + RowSeconds(rows[n]))
      else before
  }

  /** The loop of `do_atualiza_contador_selecao`; `sizes[k]` is
      `os.stat(...).st_size` of the file of row k. */
  method CountSelection(dir: string, extensoes: string, rows: seq<Row>, sizes: seq<nat>)
    returns (qtdSelecionados: nat, tamanhoTotal: nat, secs: int)
    requires |sizes| == |rows|
    ensures Tally(qtdSelecionados, tamanhoTotal, secs) == Tallied(dir, extensoes, rows, sizes)
  {
    qtdSelecionados, tamanhoTotal, secs := 0, 0, 0;
    var i := 0;
    while i < |rows|
      invariant 0 <= i <= |rows|
      invariant Tally(qtdSelecionados, tamanhoTotal, secs) == Tallied(dir, extensoes, rows[..i], sizes[..i])
    {
      assert rows[..i + 1][..i] == rows[..i] && sizes[..i + 1][..i] == sizes[..i];
      var arquivo := dir + "/" + rows[i].name;
      var time := Slice(rows[i].detail, 10, 18);
      if rows[i].selected && IsVideo(arquivo, extensoes) {
        qtdSelecionados := qtdSelecionados + 1;
        tamanhoTotal := tamanhoTotal + sizes[i];
        secs := secs + TimeToSeconds(time);
      }
      i := i + 1;
    }
    assert rows[..i] == rows && sizes[..i] == sizes;
  }

  /** The counter never counts more rows than the grid has, and counts none
      when nothing is selected. */
  lemma {:induction false} TallyBounds(dir: string, extensoes: string, rows: seq<Row>, sizes: seq<nat>)
    requires |sizes| == |rows|
    ensures Tallied(dir, extensoes, rows, sizes).count <= |rows|
    ensures (forall k :: 0 <= k < |rows| ==> !rows[k].selected) ==> Tallied(dir, extensoes, rows, sizes).count == 0
    decreases |rows|
  {
    if rows != [] {
      var n := |rows| - 1;
      TallyBounds(dir, extensoes, rows[..n], sizes[..n]);
    }
  }

  /** When every selected row is a video, the seconds on the counter are
      those `obter_total_segundos` hands to the conversion. */
  lemma {:induction false} TallySecondsAreTotal(dir: string, extensoes: string, rows: seq<Row>, sizes: seq<nat>)
    requires |sizes| == |rows|
    requires forall k :: 0 <= k < |rows| && rows[k].selected ==> IsVideo(PathOf(dir, rows[k]), extensoes)
    ensures Tallied(dir, extensoes, rows, sizes).seconds == TotalSeconds(rows)
    decreases |rows|
  {
    if rows != [] {
      var n := |rows| - 1;
      TallySecondsAreTotal(dir, extensoes, rows[..n], sizes[..n]);
    }
  }

  /** The buttons the counter enables. */
  datatype Buttons = Buttons(operations: bool, extractInterval: bool, extractSection: bool, concatenate: bool)

  /** videotools.py:1075-1080 */
  function ButtonsFor(qtdSelecionados: int): Buttons {
    Buttons(qtdSelecionados > 0, qtdSelecionados == 1, qtdSelecionados == 1, qtdSelecionados > 1)
  }

  /** With a selection, exactly one of the single-file extractions and the
      concatenation is offered; without one, nothing is. */
  lemma ButtonRule(qtdSelecionados: nat)
    ensures var b := ButtonsFor(qtdSelecionados);
      b.extractInterval == b.extractSection &&
      (b.extractInterval || b.concatenate ==> b.operations) &&
      (b.operations <==> (b.extractInterval != b.concatenate)) &&
      (b.operations <==> qtdSelecionados != 0)
  {
  }

  /** Python's `<` on two texts: code points compared left to right, a
      proper prefix first. */
  predicate Less(a: string, b: string): (r: bool)
    ensures r ==> a != b
    ensures a < b ==> r
    decreases |a|
  {
    if a == [] then b != []
    else if b == [] then false
    else if a[0] != b[0] then a[0] < b[0]
    else Less(a[1..], b[1..])
  }

  /** `compareTreeItem` on the two values of the sort column. */
  function CompareTreeItem(value1: string, value2: string): (r: int)
    ensures r == 0 <==> value1 == value2
  {
    LessTrichotomy(value1, value2);
    if Less(value1, value2) then -1
    else if value1 == value2 then 0
    else 1
  }

  lemma {:induction false} LessTrichotomy(a: string, b: string)
    ensures a == b || Less(a, b) || Less(b, a)
    ensures !(Less(a, b) && Less(b, a))
    ensures !Less(a, a)
    decreases |a|
  {
    if a != [] && b != [] {
      LessTrichotomy(a[1..], b[1..]);
      if a[0] == b[0] && a[1..] == b[1..] {
        assert a == [a[0]] + a[1..] && b == [b[0]] + b[1..];
      }
    } else if a != [] {
      LessTrichotomy(a[1..], a[1..]);
    }
  }

  lemma {:induction false} LessTransitive(a: string, b: string, c: string)
    requires Less(a, b) && Less(b, c)
    ensures Less(a, c)
    decreases |a|
  {
    if a != [] && a[0] == b[0] && b[0] == c[0] {
      LessTransitive(a[1..], b[1..], c[1..]);
    }
  }

  /** Swapping the rows swaps the answer, and the order is transitive: the
      grid is sorted by a total order on the texts. */
  lemma CompareIsOrder(a: string, b: string, c: string)
    ensures CompareTreeItem(a, b) in {-1, 0, 1}
    ensures CompareTreeItem(b, a) == -CompareTreeItem(a, b)
    ensures CompareTreeItem(a, b) <= 0 && CompareTreeItem(b, c) <= 0 ==> CompareTreeItem(a, c) <= 0
  {
    LessTrichotomy(a, b);
    if Less(a, b) && Less(b, c) {
      LessTransitive(a, b, c);
    }
  }

  /** The size column holds text: "10 KB" sorts before "9 KB". */
  lemma SizesSortAsText()
    ensures CompareTreeItem("10 KB", "9 KB") == -1
  {
    assert Less("10 KB", "9 KB");
  }

  /** An unanchored match of `[0-9]{2}:[0-9]{2}:[0-9]{2}` at i. */
  predicate ClockAt(s: string, i: nat)
    requires i + 8 <= |s|
  {
    IsDigit(s[i]) && IsDigit(s[i + 1]) && s[i + 2] == ':' && IsDigit(s[i + 3]) && IsDigit(s[i + 4]) &&
    s[i + 5] == ':' && IsDigit(s[i + 6]) && IsDigit(s[i + 7])
  }

  /** `re.search(pattern, s) is not None` */
  predicate HasClock(s: string): (r: bool)
    ensures r ==> |s| >= 8 && ':' in s
  {
    exists i: nat :: i + 8 <= |s| && ClockAt(s, i)
  }

  /** Why `do_valida_campos` shows a message instead of accepting. */
  datatype Reason = BadStart | BadEnd | EndNotAfterStart | NotWithinDuration

  /** The answer `show_and_get_info` acts on: the stripped texts of the two
      fields, or the message shown. */
  datatype Verdict = Accepted(inicio: string, fim: string) | Rejected(reason: Reason)

  /** `do_valida_campos` for the texts of the two fields and the length of
      the video (which is not stripped). */
  function ValidateInterval(inicio: string, fim: string, duracao: string): (v: Verdict)
    ensures v.Accepted? ==> v.inicio == Strip(inicio) && v.fim == Strip(fim)
    ensures v.Accepted? <==>
              HasClock(Strip(inicio)) && HasClock(Strip(fim)) &&
              TimeToSeconds(Strip(inicio)) < TimeToSeconds(Strip(fim)) &&
              TimeToSeconds(Strip(inicio)) < TimeToSeconds(duracao) &&
              TimeToSeconds(Strip(fim)) < TimeToSeconds(duracao)
  {
    var start := Strip(inicio);
    var end := Strip(fim);
    if !HasClock(start) then Rejected(BadStart)
    else if !HasClock(end) then Rejected(BadEnd)
    else if TimeToSeconds(start) >= TimeToSeconds(end) then Rejected(EndNotAfterStart)
    else if TimeToSeconds(start) >= TimeToSeconds(duracao) || TimeToSeconds(end) >= TimeToSeconds(duracao) then
      Rejected(NotWithinDuration)
    else Accepted(start, end)
  }

  /** Two clocks inside a video of a given length are accepted exactly when
      the start comes before the end and both before the length. */
  lemma ClockInterval(h0: nat, m0: nat, s0: nat, h1: nat, m1: nat, s1: nat, duracao: string)
    requires h0 < 100 && m0 < 100 && s0 < 100 && h1 < 100 && m1 < 100 && s1 < 100
    ensures var a, b, d := 3600 * h0 + 60 * m0 + s0, 3600 * h1 + 60 * m1 + s1, TimeToSeconds(duracao);
      ValidateInterval(Clock(h0, m0, s0), Clock(h1, m1, s1), duracao).Accepted? <==> a < b && a < d && b < d
  {
    ClockText(h0, m0, s0);
    ClockText(h1, m1, s1);
    ClockSeconds(h0, m0, s0);
    ClockSeconds(h1, m1, s1);
  }

  /** A clock is matched by the pattern and is left as it is by strip(). */
  lemma ClockText(h: nat, m: nat, s: nat)
    requires h < 100 && m < 100 && s < 100
    ensures HasClock(Clock(h, m, s)) && Strip(Clock(h, m, s)) == Clock(h, m, s)
  {
    var t := Clock(h, m, s);
    assert t == Pad2(h) + ":" + Pad2(m) + ":" + Pad2(s);
    assert ClockAt(t, 0);
    StripUnchanged(t);
  }

  /** Digits (with single underscores between them) cannot start with a
      letter. */
  lemma {:induction false} NonDigitFirst(d: string)
    requires |d| > 0 && !IsDigit(d[0]) && d[0] != '_'
    ensures ParseDigits(d) == None
    decreases |d|
  {
    if |d| > 1 && IsDigit(d[|d| - 1]) {
      var init := d[..|d| - 1];
      var rest := if init[|init| - 1] == '_' then init[..|init| - 1] else init;
      assert rest[0] == d[0];
      NonDigitFirst(rest);
    }
  }

  /** The search is not anchored: "a12:00:00" passes the format check, yet
      time_to_seconds reads it as 0, so it is a start before any end. */
  lemma LeadingTextReadsAsZero(h: nat, m: nat, s: nat)
    requires h < 100 && m < 100 && s < 100
    ensures HasClock("a" + Clock(h, m, s))
    ensures TimeToSeconds("a" + Clock(h, m, s)) == 0
  {
    var t := "a" + Clock(h, m, s);
    assert Clock(h, m, s) == Pad2(h) + ":" + Pad2(m) + ":" + Pad2(s);
    assert ClockAt(t, 1);
    var first := "a" + Pad2(h);
    assert t == first + ":" + (Pad2(m) + ":" + Pad2(s));
    assert ParseInt(first) == None by {
      StripUnchanged(first);
      NonDigitFirst(first);
    }
    RejectedFieldGivesZero(first, Pad2(m) + ":" + Pad2(s));
  }
}
