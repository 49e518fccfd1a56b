/** `get_ffmpeg_features` (videotools.py:1358-1377): the lines ffmpeg prints
    when started without arguments that hold "--" are joined, every match of
    `--enable-[^\s]+|disable-[^\s]+` is collected, and the list is kept in a
    global so that ffmpeg is started once only. */
module Features {
  import opened Wrappers
  import opened PyStr

  const ENABLE: string := "--enable-"
  const DISABLE: string := "disable-"

  /** `linhas`: the lines holding "--", in order, each with its own end of
      line. It is empty exactly when no line holds "--". */
  function BannerText(lines: seq<string>): (r: string)
    ensures r == [] <==> !SomeLineHolds(lines)
    decreases |lines|
  {
    if lines == [] then ""
    else
      var last := lines[|lines| - 1];
      BannerText(lines[..|lines| - 1]) + (if Contains(last, "--") then last else "")
  }

  /** Some line holds "--". */
  predicate SomeLineHolds(lines: seq<string>)
    decreases |lines|
  {
    lines != [] && (Contains(lines[|lines| - 1], "--") || SomeLineHolds(lines[..|lines| - 1]))
  }

  /** A line holding "--" anywhere in the output is one SomeLineHolds finds. */
  lemma {:induction false} LineHolds(lines: seq<string>, k: nat)
    requires k < |lines| && Contains(lines[k], "--")
    ensures SomeLineHolds(lines)
    decreases |lines|
  {
    if k < |lines| - 1 {
      assert lines[..|lines| - 1][k] == lines[k];
      LineHolds(lines[..|lines| - 1], k);
    }
  }

  /** The length of the run of non-whitespace characters starting at i. */
  function RunLength(s: string, i: nat): (n: nat)
    requires i <= |s|
    ensures i + n <= |s|
    ensures forall k :: i <= k < i + n ==> !IsSpace(s[k])
    ensures i + n == |s| || IsSpace(s[i + n])
    decreases |s| - i
  {
    if i == |s| || IsSpace(s[i]) then 0 else 1 + RunLength(s, i + 1)
  }

  /** The length of the match of the pattern starting at i, 0 for none:
      the first alternative is tried first and `[^\s]+` takes the whole
      run of non-whitespace characters, which may not be empty. */
  function MatchAt(s: string, i: nat): (n: nat)
    requires i <= |s|
    ensures i + n <= |s|
  {
    if OccursAt(s, ENABLE, i) && RunLength(s, i + |ENABLE|) > 0 then
      |ENABLE| + RunLength(s, i + |ENABLE|)
    else if OccursAt(s, DISABLE, i) && RunLength(s, i + |DISABLE|) > 0 then
      |DISABLE| + RunLength(s, i + |DISABLE|)
    else 0
  }

  /** A match starts with one of the two prefixes and is a whole run of
      non-whitespace characters. */
  lemma MatchShape(s: string, i: nat)
    requires i <= |s|
    ensures var n := MatchAt(s, i);
      n > 0 ==> (OccursAt(s, ENABLE, i) || OccursAt(s, DISABLE, i)) &&
                (forall k :: i <= k < i + n ==> !IsSpace(s[k])) &&
                (i + n == |s| || IsSpace(s[i + n]))
  {
    if OccursAt(s, ENABLE, i) {
      assert forall k :: i <= k < i + |ENABLE| ==> s[k] == ENABLE[k - i];
    }
    if OccursAt(s, DISABLE, i) {
      assert forall k :: i <= k < i + |DISABLE| ==> s[k] == DISABLE[k - i];
    }
  }

  /** A feature as `finditer` yields it: a flag name with no whitespace. */
  predicate IsToken(t: string) {
    (StartsWith(t, ENABLE) || StartsWith(t, DISABLE)) && forall k :: 0 <= k < |t| ==> !IsSpace(t[k])
  }

  /** `finditer` from position i: after a match the scan resumes where it
      ended, elsewhere one character further. */
  function TokensFrom(s: string, i: nat): seq<string>
    requires i <= |s|
    decreases |s| - i
  {
    if i == |s| then []
    else
      var n := MatchAt(s, i);
      if n > 0 then [s[i..i + n]] + TokensFrom(s, i + n)
      else TokensFrom(s, i + 1)
  }

  /** Every match is a flag name. */
  lemma {:induction false} AllTokens(s: string, i: nat)
    requires i <= |s|
    ensures forall k :: 0 <= k < |TokensFrom(s, i)| ==> IsToken(TokensFrom(s, i)[k])
    decreases |s| - i
  {
    if i < |s| {
      var n := MatchAt(s, i);
      if n > 0 {
        AllTokens(s, i + n);
        MatchShape(s, i);
        var t := s[i..i + n];
        assert StartsWith(t, ENABLE) || StartsWith(t, DISABLE);
        assert IsToken(t);
      } else {
        AllTokens(s, i + 1);
      }
    }
  }

  /** `re.findall` over the joined lines: every element is a flag name. */
  function Tokens(s: string): (r: seq<string>)
    ensures forall k :: 0 <= k < |r| ==> IsToken(r[k])
  {
    AllTokens(s, 0);
    TokensFrom(s, 0)
  }

  /** The text kept from two batches of lines is the text of each, in order. */
  lemma {:induction false} BannerAppend(a: seq<string>, b: seq<string>)
    ensures BannerText(a + b) == BannerText(a) + BannerText(b)
    decreases |b|
  {
    if b != [] {
      var last := b[|b| - 1];
      var kept := if Contains(last, "--") then last else "";
      assert (a + b)[..|a + b| - 1] == a + b[..|b| - 1];
      assert (a + b)[|a + b| - 1] == last;
      BannerLast(a + b);
      BannerLast(b);
      BannerAppend(a, b[..|b| - 1]);
      assert BannerText(a) + BannerText(b[..|b| - 1]) + kept == BannerText(a) + (BannerText(b[..|b| - 1]) + kept);
    } else {
      assert a + b == a;
    }
  }

  lemma BannerLast(lines: seq<string>)
    requires lines != []
    ensures BannerText(lines) == BannerText(lines[..|lines| - 1]) +
                                 (if Contains(lines[|lines| - 1], "--") then lines[|lines| - 1] else "")
  {
  }

  /** One line is kept whole exactly when it holds "--". */
  lemma BannerLine(line: string)
    ensures BannerText([line]) == if Contains(line, "--") then line else ""
  {
    assert [line][..0] == [];
  }

  /** A run of m non-whitespace characters that ends the text or a
      whitespace character is the whole run. */
  lemma {:induction false} ExactRun(s: string, i: nat, m: nat)
    requires i + m <= |s|
    requires forall k :: i <= k < i + m ==> !IsSpace(s[k])
    requires i + m == |s| || IsSpace(s[i + m])
    ensures RunLength(s, i) == m
    decreases m
  {
    if m > 0 {
      ExactRun(s, i + 1, m - 1);
    }
  }

  /** One step of the scan: past a match, or one character further. */
  lemma TokensStep(s: string, i: nat)
    requires i < |s|
    ensures MatchAt(s, i) > 0 ==> TokensFrom(s, i) == [s[i..i + MatchAt(s, i)]] + TokensFrom(s, i + MatchAt(s, i))
    ensures MatchAt(s, i) == 0 ==> TokensFrom(s, i) == TokensFrom(s, i + 1)
  {
  }

  /** Every token found from k on is found from i on, when no match
      starting between i and k reaches past k. */
  lemma {:induction false} Visits(s: string, i: nat, k: nat)
    requires i <= k <= |s|
    requires forall j :: i <= j < k ==> j + MatchAt(s, j) <= k
    ensures forall t :: t in TokensFrom(s, k) ==> t in TokensFrom(s, i)
    decreases k - i
  {
    if i < k {
      var n := MatchAt(s, i);
      var next := if n > 0 then i + n else i + 1;
      Visits(s, next, k);
      TokensStep(s, i);
    }
  }

  /** A match never reaches past a whitespace character. */
  lemma NoMatchAcross(s: string, i: nat)
    requires 0 < i <= |s| && IsSpace(s[i - 1])
    ensures forall j :: 0 <= j < i ==> j + MatchAt(s, j) <= i
  {
    forall j | 0 <= j < i
      ensures j + MatchAt(s, j) <= i
    {
      MatchShape(s, j);
    }
  }

  /** At a flag `pre + name` standing alone the scan yields it whole. */
  lemma TokenAt(s: string, i: nat, pre: string, name: string)
    requires pre == ENABLE || pre == DISABLE
    requires OccursAt(s, pre + name, i)
    requires pre == DISABLE ==> !OccursAt(s, ENABLE, i)
    requires name != [] && forall k :: 0 <= k < |name| ==> !IsSpace(name[k])
    requires i + |pre| + |name| == |s| || IsSpace(s[i + |pre| + |name|])
    ensures TokensFrom(s, i) == [pre + name] + TokensFrom(s, i + |pre| + |name|)
  {
    var a := i + |pre|;
    assert s[i..i + |pre| + |name|] == pre + name;
    assert (pre + name)[..|pre|] == pre;
    assert s[i..a] == s[i..i + |pre| + |name|][..|pre|];
    assert forall k :: a <= k < a + |name| ==> s[k] == name[k - a];
    ExactRun(s, a, |name|);
    assert OccursAt(s, pre, i);
  }

  /** A flag the scan reaches is listed. */
  lemma Listed(s: string, i: nat, pre: string, name: string)
    requires pre == ENABLE || pre == DISABLE
    requires OccursAt(s, pre + name, i)
    requires pre == DISABLE ==> !OccursAt(s, ENABLE, i)
    requires name != [] && forall k :: 0 <= k < |name| ==> !IsSpace(name[k])
    requires i + |pre| + |name| == |s| || IsSpace(s[i + |pre| + |name|])
    requires forall j :: 0 <= j < i ==> j + MatchAt(s, j) <= i
    ensures pre + name in Tokens(s)
  {
    Visits(s, 0, i);
    TokenAt(s, i, pre, name);
    assert pre + name in TokensFrom(s, i);
  }

  /** "--enable-<name>" between whitespace (or the ends of the text) is one
      of the features. */
  lemma EnabledListed(p: string, name: string, q: string)
    requires p == [] || IsSpace(p[|p| - 1])
    requires name != [] && forall k :: 0 <= k < |name| ==> !IsSpace(name[k])
    requires q == [] || IsSpace(q[0])
    ensures ENABLE + name in Tokens(p + ENABLE + name + q)
  {
    var s := p + ENABLE + name + q;
    var i := |p|;
    assert s[i..i + |ENABLE + name|] == ENABLE + name;
    if i > 0 {
      assert s[i - 1] == p[|p| - 1];
      NoMatchAcross(s, i);
    }
    assert q != [] ==> s[i + |ENABLE| + |name|] == q[0];
    Listed(s, i, ENABLE, name);
  }

  /** Neither alternative matches at the two dashes of "--disable-". */
  lemma DashesDoNotMatch(s: string, j: nat)
    requires OccursAt(s, "--" + DISABLE, j)
    ensures MatchAt(s, j) == 0 && MatchAt(s, j + 1) == 0
    ensures !OccursAt(s, ENABLE, j + 2)
  {
    assert s[j..j + 10] == "--" + DISABLE;
    assert s[j] == '-' && s[j + 1] == '-' && s[j + 2] == 'd';
    assert !OccursAt(s, ENABLE, j) by {
      assert s[j + 2] != ENABLE[2];
    }
    assert !OccursAt(s, DISABLE, j) by {
      assert s[j] != DISABLE[0];
    }
    assert !OccursAt(s, ENABLE, j + 1) by {
      assert s[j + 2] != ENABLE[1];
    }
    assert !OccursAt(s, DISABLE, j + 1) by {
      assert s[j + 1] != DISABLE[0];
    }
    assert !OccursAt(s, ENABLE, j + 2) by {
      assert s[j + 2] != ENABLE[0];
    }
  }

  /** The scan reaches the name after "--" placed after whitespace. */
  lemma ReachPastDashes(s: string, m: nat)
    requires OccursAt(s, "--" + DISABLE, m)
    requires m == 0 || IsSpace(s[m - 1])
    ensures forall j :: 0 <= j < m + 2 ==> j + MatchAt(s, j) <= m + 2
  {
    DashesDoNotMatch(s, m);
    if m > 0 {
      NoMatchAcross(s, m);
    }
    forall j | 0 <= j < m + 2
      ensures j + MatchAt(s, j) <= m + 2
    {
      if j >= m {
        assert j == m || j == m + 1;
      }
    }
  }

  /** "--disable-<name>" between whitespace is listed as "disable-<name>",
      and no feature ever starts with "--disable-". */
  lemma DisabledListed(p: string, name: string, q: string)
    requires p == [] || IsSpace(p[|p| - 1])
    requires name != [] && forall k :: 0 <= k < |name| ==> !IsSpace(name[k])
    requires q == [] || IsSpace(q[0])
    ensures DISABLE + name in Tokens(p + "--" + DISABLE + name + q)
    ensures "--" + DISABLE + name !in Tokens(p + "--" + DISABLE + name + q)
  {
    DisabledIn(p, name, q);
    DoubleDashNeverListed(p + "--" + DISABLE + name + q, name);
  }

  lemma DisabledIn(p: string, name: string, q: string)
    requires p == [] || IsSpace(p[|p| - 1])
    requires name != [] && forall k :: 0 <= k < |name| ==> !IsSpace(name[k])
    requires q == [] || IsSpace(q[0])
    ensures DISABLE + name in Tokens(p + "--" + DISABLE + name + q)
  {
    DisabledPlaced(p, name, q);
    DisabledAt(p + "--" + DISABLE + name + q, |p|, name);
  }

  /** Where "--disable-<name>" stands in p + "--disable-<name>" + q, and what
      stands around it. */
  lemma DisabledPlaced(p: string, name: string, q: string)
    requires p == [] || IsSpace(p[|p| - 1])
    requires q == [] || IsSpace(q[0])
    ensures var s := p + "--" + DISABLE + name + q;
            OccursAt(s, "--" + DISABLE + name, |p|) && (|p| == 0 || IsSpace(s[|p| - 1])) &&
            (|p| + 10 + |name| == |s| || IsSpace(s[|p| + 10 + |name|]))
  {
    var flag := "--" + DISABLE + name;
    var s := p + flag + q;
    assert p + "--" + DISABLE + name + q == s;
    assert s[|p|..|p| + |flag|] == flag;
    assert |p| > 0 ==> s[|p| - 1] == p[|p| - 1];
    assert q != [] ==> s[|p| + |flag|] == q[0];
  }

  lemma DisabledAt(s: string, m: nat, name: string)
    requires OccursAt(s, "--" + DISABLE + name, m)
    requires m == 0 || IsSpace(s[m - 1])
    requires name != [] && forall k :: 0 <= k < |name| ==> !IsSpace(name[k])
    requires m + 10 + |name| == |s| || IsSpace(s[m + 10 + |name|])
    ensures DISABLE + name in Tokens(s)
  {
    OccursSplit(s, "--" + DISABLE, name, m);
    assert "--" + DISABLE + name == "--" + (DISABLE + name);
    OccursSplit(s, "--", DISABLE + name, m);
    DisabledAfterDashes(s, m, name);
  }

  /** The scan passes the two dashes and finds "disable-<name>" after them. */
  lemma DisabledAfterDashes(s: string, m: nat, name: string)
    requires OccursAt(s, "--" + DISABLE, m) && OccursAt(s, DISABLE + name, m + 2)
    requires m == 0 || IsSpace(s[m - 1])
    requires name != [] && forall k :: 0 <= k < |name| ==> !IsSpace(name[k])
    requires m + 10 + |name| == |s| || IsSpace(s[m + 10 + |name|])
    ensures DISABLE + name in Tokens(s)
  {
    DashesDoNotMatch(s, m);
    ReachPastDashes(s, m);
    Listed(s, m + 2, DISABLE, name);
  }

  /** An occurrence of a + b is one of a followed by one of b. */
  lemma OccursSplit(s: string, a: string, b: string, m: nat)
    requires OccursAt(s, a + b, m)
    ensures OccursAt(s, a, m) && OccursAt(s, b, m + |a|)
  {
    var w := s[m..m + |a| + |b|];
    assert (a + b)[..|a|] == a && (a + b)[|a|..] == b;
    assert s[m..m + |a|] == w[..|a|];
    assert s[m + |a|..m + |a| + |b|] == w[|a|..];
  }

  /** No feature starts with "--disable-": that text is not a match. */
  lemma DoubleDashNeverListed(s: string, name: string)
    ensures "--" + DISABLE + name !in Tokens(s)
  {
    var t := "--" + DISABLE + name;
    assert !IsToken(t) by {
      assert t[0] != DISABLE[0] && t[2] != ENABLE[2];
    }
  }

  /** The loop collecting the lines that hold "--". */
  method JoinBanner(banner: seq<string>) returns (linhas: string)
    ensures linhas == BannerText(banner)
  {
    linhas := "";
    var i := 0;
    while i < |banner|
      invariant 0 <= i <= |banner|
      invariant linhas == BannerText(banner[..i])
    {
      assert banner[..i + 1][..i] == banner[..i];
      if Contains(banner[i], "--") {
        linhas := linhas + banner[i];
      }
      i := i + 1;
    }
    assert banner[..i] == banner;
  }

  /** The loop over `pattern.finditer(linhas)`. */
  method Scan(linhas: string) returns (features: seq<string>)
    ensures features == Tokens(linhas)
  {
    features := [];
    var pos := 0;
    while pos < |linhas|
      invariant 0 <= pos <= |linhas|
      invariant features + TokensFrom(linhas, pos) == TokensFrom(linhas, 0)
      decreases |linhas| - pos
    {
      var n := MatchAt(linhas, pos);
      ScanStep(linhas, pos, n, features);
      if n > 0 {
        features := features + [linhas[pos..pos + n]];
        pos := pos + n;
      } else {
        pos := pos + 1;
      }
    }
  }

  /** One step of `finditer`, read off TokensFrom. */
  lemma ScanStep(s: string, pos: nat, n: nat, features: seq<string>)
    requires pos < |s| && n == MatchAt(s, pos)
    ensures n > 0 ==> features + [s[pos..pos + n]] + TokensFrom(s, pos + n) == features + TokensFrom(s, pos)
    ensures n == 0 ==> features + TokensFrom(s, pos + 1) == features + TokensFrom(s, pos)
  {
    TokensStep(s, pos);
    if n > 0 {
      Regroup(features, s[pos..pos + n], TokensFrom(s, pos + n));
    }
  }

  lemma Regroup(features: seq<string>, t: string, rest: seq<string>)
    ensures features + [t] + rest == features + ([t] + rest)
  {
  }

  /** The global `gListaFfmpegFeatures` and the function that fills it. */
  class FeatureCache {
    var cached: Option<seq<string>>
    /** How many times ffmpeg was started to read its features. */
    var probes: nat

    constructor ()
      ensures cached == None && probes == 0
    {
      cached := None;
      probes := 0;
    }

    /** `get_ffmpeg_features()`; `banner` is what ffmpeg would print. */
    method Get(banner: seq<string>) returns (features: seq<string>)
      modifies this
      ensures old(cached).Some? ==> features == old(cached).value && cached == old(cached) && probes == old(probes)
      ensures old(cached).None? ==> features == Tokens(BannerText(banner)) && cached == Some(features) && probes == old(probes) + 1
    {
      if cached.Some? {
        return cached.value;
      }
      probes := probes + 1;
      var linhas := JoinBanner(banner);
      features := Scan(linhas);
      cached := Some(features);
    }
  }
}
