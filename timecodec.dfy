/** The two time helpers of videotools.py: `time_to_seconds`, a lenient
    "H:M:S" reader built on `zip([3600, 60, 1], map(int, text.split(':')))`,
    and `seconds_to_time`, which formats through `time.gmtime` and therefore
    shows the time of day (hours wrap at 24). */
module TimeCodec {
  import opened Wrappers
  import opened PyStr

  const WEIGHTS: seq<int> := [3600, 60, 1]

  /** `map(int, fields)`, each field's ValueError kept as None. */
  function Ints(fields: seq<string>): (vs: seq<Option<int>>)
    ensures |vs| == |fields|
    ensures forall k :: 0 <= k < |fields| ==> vs[k] == ParseInt(fields[k])
  {
    seq(|fields|, k requires 0 <= k < |fields| => ParseInt(fields[k]))
  }

  /** `sum(a * b for a, b in zip(weights, values))`. Under Python 3 `map` is
      lazy and `zip` stops as soon as `weights` runs out, so only the first
      |weights| values are ever computed: a None among the later ones has
      no effect, the first None among those read is the ValueError raised. */
  function WeightedSum(weights: seq<int>, values: seq<Option<int>>): Option<int>
    decreases |weights|
  {
    if |weights| == 0 || |values| == 0 then Some(0)
    else if values[0].None? then None
    else
      match WeightedSum(weights[1..], values[1..])
      case None => None
      case Some(r) => Some(weights[0] * values[0].value + r)
  }

  /** `time_to_seconds(text)`: the weighted sum, or 0 when a ValueError is
      caught. A first field that `int()` rejects gives 0, and text of three
      fields or more is read from its first three fields only. */
  function TimeToSeconds(text: string): (r: int)
    ensures ParseInt(Split(text, ':')[0]).None? ==> r == 0
    ensures |Split(text, ':')| >= 3 ==>
              r == Read3(ParseInt(Split(text, ':')[0]), ParseInt(Split(text, ':')[1]), ParseInt(Split(text, ':')[2]))
    // a single field is read as hours: "5" is 18000
    ensures |Split(text, ':')| == 1 && ParseInt(text).Some? ==> r == 3600 * ParseInt(text).value
  {
    WeightedThree(Ints(Split(text, ':')));
    WeightedShort(Ints(Split(text, ':')));
    SplitSingle(text, ':');
    match WeightedSum(WEIGHTS, Ints(Split(text, ':')))
    case Some(v) => v
    case None => 0
  }

  /** Eight characters: three fields of two digits each, joined by ':'. */
  predicate Shape(t: string) {
    |t| == 8 && t[2] == ':' && t[5] == ':' &&
    IsDigit(t[0]) && IsDigit(t[1]) && IsDigit(t[3]) && IsDigit(t[4]) && IsDigit(t[6]) && IsDigit(t[7])
  }

  /** The text "HH:MM:SS" for three two-digit fields. */
  function Clock(h: nat, m: nat, s: nat): (t: string)
    requires h < 100 && m < 100 && s < 100
    ensures Shape(t)
  {
    Pad2(h) + ":" + Pad2(m) + ":" + Pad2(s)
  }

  /** `seconds_to_time(secs)`: `strftime('%H:%M:%S', gmtime(secs))`. `gmtime`
      counts from the epoch with floor semantics, so the clock shows
      secs modulo one day (86400 seconds), also for negative secs. */
  function SecondsToTime(secs: int): (t: string)
    ensures Shape(t)
  {
    var d := secs % 86400;
    Clock(d / 3600, d % 3600 / 60, d % 60)
  }

  lemma ParsePad2(n: nat)
    requires n < 100
    ensures ParseInt(Pad2(n)) == Some(n)
  {
    var s := Pad2(n);
    assert s[..1] == [s[0]];
    assert ParseDigits(s[..1]) == Some(n / 10);
    StripUnchanged(s);
  }

  lemma SplitThree(a: string, b: string, c: string)
    requires ':' !in a && ':' !in b && ':' !in c
    ensures Split(a + ":" + b + ":" + c, ':') == [a, b, c]
  {
    assert a + ":" + b + ":" + c == a + [':'] + (b + [':'] + c);
    SplitCons(a, ':', b + [':'] + c);
    SplitCons(b, ':', c);
    NoSeparator(c, ':');
  }

  /** The weighted sum reads the first three values only. */
  lemma WeightedThree(vs: seq<Option<int>>)
    ensures |vs| >= 3 ==>
              WeightedSum(WEIGHTS, vs) ==
              if vs[0].None? || vs[1].None? || vs[2].None? then None
              else Some(3600 * vs[0].value + 60 * vs[1].value + vs[2].value)
  {
    assert WEIGHTS[1..] == [60, 1] && WEIGHTS[1..][1..] == [1] && WEIGHTS[1..][1..][1..] == [];
  }

  /** Fewer than three fields: the missing ones weigh nothing. */
  lemma WeightedShort(vs: seq<Option<int>>)
    ensures |vs| == 0 ==> WeightedSum(WEIGHTS, vs) == Some(0)
    ensures |vs| == 1 ==> WeightedSum(WEIGHTS, vs) == if vs[0].None? then None else Some(3600 * vs[0].value)
    ensures |vs| == 2 ==> WeightedSum(WEIGHTS, vs) ==
                          if vs[0].None? || vs[1].None? then None else Some(3600 * vs[0].value + 60 * vs[1].value)
  {
    assert WEIGHTS[1..] == [60, 1] && WEIGHTS[1..][1..] == [1];
  }

  /** Reading "HH:MM:SS" gives H*3600 + M*60 + S. */
  lemma ClockSeconds(h: nat, m: nat, s: nat)
    requires h < 100 && m < 100 && s < 100
    ensures TimeToSeconds(Clock(h, m, s)) == 3600 * h + 60 * m + s
  {
    SplitThree(Pad2(h), Pad2(m), Pad2(s));
    ParsePad2(h);
    ParsePad2(m);
    ParsePad2(s);
    WeightedThree(Ints([Pad2(h), Pad2(m), Pad2(s)]));
  }

  /** Formatting then reading gives back the time of day: secs itself for
      0 <= secs < 86400, and secs modulo 86400 otherwise. */
  lemma TimeRoundTrip(secs: int)
    ensures TimeToSeconds(SecondsToTime(secs)) == secs % 86400
    ensures 0 <= secs < 86400 ==> TimeToSeconds(SecondsToTime(secs)) == secs
  {
    var d := secs % 86400;
    var h, m, s := d / 3600, d % 3600 / 60, d % 60;
    ClockFields(d);
    assert 0 <= secs < 86400 ==> d == secs;
    ClockSeconds(h, m, s);
  }

  lemma ClockFields(d: int)
    requires 0 <= d < 86400
    ensures d / 3600 < 24 && d % 3600 / 60 < 60
    ensures 3600 * (d / 3600) + 60 * (d % 3600 / 60) + d % 60 == d
  {
  }

  /** Reading then formatting a valid time of day gives it back. */
  lemma ClockRoundTrip(h: nat, m: nat, s: nat)
    requires h < 24 && m < 60 && s < 60
    ensures SecondsToTime(TimeToSeconds(Clock(h, m, s))) == Clock(h, m, s)
  {
    ClockSeconds(h, m, s);
    ShowSeconds(TimeToSeconds(Clock(h, m, s)), h, m, s);
    SmallHour(h);
  }

  lemma SmallHour(h: nat)
    requires h < 24
    ensures h % 24 == h
  {
  }

  /** An hour of 24 or more comes back modulo 24: "25:00:00" is shown as
      "01:00:00". */
  lemma HourWraps(h: nat, m: nat, s: nat)
    requires h < 100 && m < 60 && s < 60
    ensures SecondsToTime(TimeToSeconds(Clock(h, m, s))) == Clock(h % 24, m, s)
  {
    ClockSeconds(h, m, s);
    ShowSeconds(TimeToSeconds(Clock(h, m, s)), h, m, s);
  }

  /** h hours, m minutes and s seconds are shown with the hours modulo 24. */
  lemma ShowSeconds(t: int, h: nat, m: nat, s: nat)
    requires m < 60 && s < 60
    requires t == 3600 * h + 60 * m + s
    ensures SecondsToTime(t) == Clock(h % 24, m, s)
  {
    DayOfClock(h, m, s);
    ShowDay(t, h % 24, m, s);
  }

  /** A time whose time of day is h:m:s is shown as that clock. */
  lemma ShowDay(t: int, h: nat, m: nat, s: nat)
    requires h < 24 && m < 60 && s < 60
    requires t % 86400 == 3600 * h + 60 * m + s
    ensures SecondsToTime(t) == Clock(h, m, s)
  {
    var d := t % 86400;
    assert d / 3600 == h && d % 3600 == 60 * m + s;
    assert (60 * m + s) / 60 == m;
    assert d == 60 * (60 * h + m) + s;
    assert d % 60 == s;
  }

  lemma DayOfClock(h: nat, m: nat, s: nat)
    requires m < 60 && s < 60
    ensures (3600 * h + 60 * m + s) % 86400 == 3600 * (h % 24) + 60 * m + s
  {
    var t := 3600 * h + 60 * m + s;
    var d := t % 86400;
    assert t == 86400 * (h / 24) + (3600 * (h % 24) + 60 * m + s);
    assert d == 3600 * (h % 24) + 60 * m + s;
  }

  /** The reading of three fields. */
  function Read3(a: Option<int>, b: Option<int>, c: Option<int>): int {
    if a.None? || b.None? || c.None? then 0 else 3600 * a.value + 60 * b.value + c.value
  }

  /** Fields after the third are never given to int(): "a:b:c:anything" reads
      as "a:b:c". */
  lemma ExtraFieldsIgnored(a: string, b: string, c: string, rest: string)
    requires ':' !in a && ':' !in b && ':' !in c
    ensures TimeToSeconds(a + ":" + b + ":" + c + ":" + rest) == TimeToSeconds(a + ":" + b + ":" + c)
  {
    var t := a + ":" + b + ":" + c + ":" + rest;
    SplitFour(a, b, c, rest);
    SplitThree(a, b, c);
  }

  lemma SplitFour(a: string, b: string, c: string, rest: string)
    requires ':' !in a && ':' !in b && ':' !in c
    ensures Split(a + ":" + b + ":" + c + ":" + rest, ':') == [a, b, c] + Split(rest, ':')
  {
    var r2 := c + [':'] + rest;
    var r1 := b + [':'] + r2;
    assert a + ":" + b + ":" + c + ":" + rest == a + [':'] + r1;
    SplitCons(a, ':', r1);
    SplitCons(b, ':', r2);
    SplitCons(c, ':', rest);
    Cons3(a, b, c, Split(rest, ':'));
  }

  lemma Cons3(a: string, b: string, c: string, tail: seq<string>)
    ensures [a] + ([b] + ([c] + tail)) == [a, b, c] + tail
  {
  }

  /** Two fields are read as hours and minutes: "1:2" is 3720 seconds. */
  lemma TwoFieldsAreHoursAndMinutes()
    ensures TimeToSeconds("1:2") == 3720
  {
    assert "1:2" == "1" + [':'] + "2";
    SplitCons("1", ':', "2");
    NoSeparator("2", ':');
    ReadTwo("1:2");
    ParseDigit(1);
    ParseDigit(2);
  }

  /** Text with two fields is read as hours and minutes. */
  lemma ReadTwo(t: string)
    requires |Split(t, ':')| == 2
    ensures TimeToSeconds(t) ==
              var a, b := ParseInt(Split(t, ':')[0]), ParseInt(Split(t, ':')[1]);
              if a.None? || b.None? then 0 else 3600 * a.value + 60 * b.value
  {
    WeightedShort(Ints(Split(t, ':')));
  }

  /** `int()` of one digit. */
  lemma ParseDigit(n: nat)
    requires n < 10
    ensures ParseInt([DigitChar(n)]) == Some(n)
  {
    assert Decimal(n) == [DigitChar(n)];
    ParseDecimal(n);
  }

  /** A first field that int() rejects makes the whole reading 0, even when
      the other fields are fine. */
  lemma RejectedFieldGivesZero(a: string, rest: string)
    requires ':' !in a
    requires ParseInt(a) == None
    ensures TimeToSeconds(a + ":" + rest) == 0
    ensures TimeToSeconds(a) == 0
  {
    SplitCons(a, ':', rest);
    NoSeparator(a, ':');
  }

  /** The empty text and "abc" both read as 0. */
  lemma MalformedExamples()
    ensures TimeToSeconds("") == 0
    ensures TimeToSeconds("abc") == 0
  {
    assert Strip("") == "";
    RejectedFieldGivesZero("", "");
    StripUnchanged("abc");
    RejectedFieldGivesZero("abc", "");
  }
}
