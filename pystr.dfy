/** The Python 3 `str` operations videotools.py is built from, with CPython's
    semantics: `find`/`rfind` answering -1 when nothing is found, slices whose
    bounds may be negative or out of range, `replace`, `split` on one
    character, `strip`, `lower` (ASCII letters only), `int()` in base 10, `str()`
    of a natural number, and the POSIX `os.path.basename`/`os.path.dirname`. */
module PyStr {
  import opened Wrappers

  /** `c.isspace()`: the characters `strip()`, `int()` and the regular-expression
      class `\s` treat as whitespace. */
  predicate IsSpace(c: char) {
    c == ' ' || ('\t' <= c <= '\r') || ('\U{1C}' <= c <= '\U{1F}') || c == '\U{85}'
    || c == '\U{A0}' || c == '\U{1680}' || ('\U{2000}' <= c <= '\U{200A}')
    || c == '\U{2028}' || c == '\U{2029}' || c == '\U{202F}' || c == '\U{205F}'
    || c == '\U{3000}'
  }

  predicate IsDigit(c: char) {
    '0' <= c <= '9'
  }

  /** `sub` occurs in `s` starting at index `i`. */
  predicate OccursAt(s: string, sub: string, i: int) {
    0 <= i && i + |sub| <= |s| && s[i..i + |sub|] == sub
  }

  predicate StartsWith(s: string, prefix: string) {
    |prefix| <= |s| && s[..|prefix|] == prefix
  }

  predicate EndsWith(s: string, suffix: string) {
    |suffix| <= |s| && s[|s| - |suffix|..] == suffix
  }

  /** a + b ends with b. */
  lemma EndsWithJoin(a: string, b: string)
    ensures EndsWith(a + b, b)
  {
    assert (a + b)[|a|..] == b;
  }

  function FindFrom(s: string, sub: string, i: nat): (r: int)
    ensures r == -1 || (i <= r && OccursAt(s, sub, r))
    ensures r == -1 ==> forall j :: i <= j ==> !OccursAt(s, sub, j)
    ensures r >= 0 ==> forall j :: i <= j < r ==> !OccursAt(s, sub, j)
    decreases |s| - i
  {
    if i + |sub| > |s| then -1
    else if s[i..i + |sub|] == sub then i
    else FindFrom(s, sub, i + 1)
  }

  /** `s.find(sub)`: the lowest index at which `sub` occurs, or -1. */
  function Find(s: string, sub: string): (r: int)
    ensures r >= 0 <==> exists j :: OccursAt(s, sub, j)
    ensures r < 0 ==> r == -1
    ensures r >= 0 ==> OccursAt(s, sub, r) && forall j :: 0 <= j < r ==> !OccursAt(s, sub, j)
  {
    FindFrom(s, sub, 0)
  }

  /** `sub in s` */
  predicate Contains(s: string, sub: string) {
    Find(s, sub) >= 0
  }

  /** `s.rfind(c)` for a one-character argument: the highest index holding `c`, or -1. */
  function RFind(s: string, c: char): (r: int)
    ensures -1 <= r < |s|
    ensures r >= 0 ==> s[r] == c
    ensures forall j :: r < j < |s| ==> s[j] != c
  {
    if |s| == 0 then -1
    else if s[|s| - 1] == c then |s| - 1
    else RFind(s[..|s| - 1], c)
  }

  lemma {:induction false} RFindAbsent(s: string, c: char)
    requires c !in s
    ensures RFind(s, c) == -1
  {
    if |s| > 0 {
      assert s[..|s| - 1] <= s;
      RFindAbsent(s[..|s| - 1], c);
    }
  }

  /** The last `c` of p + [c] + q, when q has none, is at |p|. */
  lemma {:induction false} RFindLast(p: string, c: char, q: string)
    requires c !in q
    ensures RFind(p + [c] + q, c) == |p|
  {
    var s := p + [c] + q;
    if q == [] {
      assert s[|s| - 1] == c;
    } else {
      assert s[..|s| - 1] == p + [c] + q[..|q| - 1];
      assert q[..|q| - 1] <= q;
      RFindLast(p, c, q[..|q| - 1]);
    }
  }

  /** How a slice bound is normalised: a negative bound counts from the end,
      and every bound is clamped into [0, n]. */
  function SliceIndex(n: nat, i: int): (k: nat)
    ensures k <= n
    ensures 0 <= i <= n ==> k == i
    ensures i < 0 && -i <= n ==> k == n + i
  {
    if i < 0 then (if i + n < 0 then 0 else i + n) else if i > n then n else i
  }

  /** `s[i:j]` */
  function Slice(s: string, i: int, j: int): (r: string)
    ensures |r| <= |s|
    ensures 0 <= i <= j <= |s| ==> r == s[i..j]
  {
    var a, b := SliceIndex(|s|, i), SliceIndex(|s|, j);
    if b <= a then [] else s[a..b]
  }

  /** `s.replace(pat, rep)`: every non-overlapping occurrence, scanning left to right. */
  function Replace(s: string, pat: string, rep: string): (r: string)
    requires pat != []
    decreases |s|
  {
    var i := Find(s, pat);
    if i < 0 then s else s[..i] + rep + Replace(s[i + |pat|..], pat, rep)
  }

  /** Text that does not contain the pattern is left as it is. */
  lemma ReplaceAbsent(s: string, pat: string, rep: string)
    requires pat != [] && !Contains(s, pat)
    ensures Replace(s, pat, rep) == s
  {
  }

  /** A character the pattern does not hold survives the replacement. */
  lemma {:induction false} ReplaceKeeps(s: string, pat: string, rep: string, c: char)
    requires pat != [] && c !in pat && c in s
    ensures c in Replace(s, pat, rep)
    decreases |s|
  {
    var i := Find(s, pat);
    if i < 0 {
      assert Replace(s, pat, rep) == s;
    } else {
      var rest := s[i + |pat|..];
      var r := Replace(rest, pat, rep);
      assert Replace(s, pat, rep) == s[..i] + rep + r;
      var j :| 0 <= j < |s| && s[j] == c;
      if j < i {
        assert s[..i][j] == c;
        assert (s[..i] + rep + r)[j] == c;
      } else if j < i + |pat| {
        assert false;
      } else {
        assert rest[j - i - |pat|] == c;
        ReplaceKeeps(rest, pat, rep, c);
        var k :| 0 <= k < |r| && r[k] == c;
        assert (s[..i] + rep + r)[i + |rep| + k] == c;
      }
    }
  }

  /** An occurrence starts with the pattern's first character. */
  lemma OccursHead(s: string, pat: string)
    requires pat != []
    ensures forall j :: OccursAt(s, pat, j) ==> s[j] == pat[0]
  {
    forall j | OccursAt(s, pat, j) ensures s[j] == pat[0] {
      assert s[j..j + |pat|][0] == s[j];
    }
  }

  /** An occurrence matches the pattern character by character. */
  lemma OccursChars(s: string, pat: string)
    ensures forall j, k :: OccursAt(s, pat, j) && 0 <= k < |pat| ==> s[j + k] == pat[k]
  {
    forall j, k | OccursAt(s, pat, j) && 0 <= k < |pat| ensures s[j + k] == pat[k] {
      assert s[j..j + |pat|][k] == s[j + k];
    }
  }

  /** A pattern cannot occur before the first place its first character appears. */
  lemma FindAfterPrefix(a: string, pat: string, b: string)
    requires pat != [] && pat[0] !in a
    ensures Find(a + pat + b, pat) == |a|
  {
    var s := a + pat + b;
    assert s[|a|..|a| + |pat|] == pat;
    assert OccursAt(s, pat, |a|);
    OccursHead(s, pat);
    assert forall j :: 0 <= j < |a| ==> s[j] == a[j];
  }

  /** The first occurrence is replaced and the scan resumes after it. */
  lemma ReplaceFirst(a: string, pat: string, rep: string, b: string)
    requires pat != [] && pat[0] !in a
    ensures Replace(a + pat + b, pat, rep) == a + rep + Replace(b, pat, rep)
  {
    var s := a + pat + b;
    FindAfterPrefix(a, pat, b);
    assert s[..|a|] == a;
    assert s[|a| + |pat|..] == b;
  }

  /** An occurrence in a + b from index |a| on is an occurrence in b. */
  lemma OccursShift(a: string, b: string, pat: string)
    ensures forall k :: |a| <= k ==> (OccursAt(a + b, pat, k) <==> OccursAt(b, pat, k - |a|))
  {
    forall k | |a| <= k ensures OccursAt(a + b, pat, k) <==> OccursAt(b, pat, k - |a|) {
      if k + |pat| <= |a + b| {
        assert (a + b)[k..k + |pat|] == b[k - |a|..k - |a| + |pat|];
      }
    }
  }

  /** Past a prefix in which no occurrence starts, the first occurrence in
      a + b is the first one in b, shifted by |a|. */
  lemma FindSkip(a: string, b: string, pat: string)
    requires forall j :: 0 <= j < |a| ==> !OccursAt(a + b, pat, j)
    ensures Find(a + b, pat) == if Find(b, pat) < 0 then -1 else |a| + Find(b, pat)
  {
    var s := a + b;
    var i := Find(b, pat);
    OccursShift(a, b, pat);
    if i < 0 {
      assert forall k :: |a| <= k ==> !OccursAt(s, pat, k);
    } else {
      assert OccursAt(s, pat, |a| + i);
    }
  }

  /** A prefix in which no occurrence starts is kept, and the replacing goes
      on in the rest. */
  lemma ReplaceSkip(a: string, b: string, pat: string, rep: string)
    requires pat != []
    requires forall j :: 0 <= j < |a| ==> !OccursAt(a + b, pat, j)
    ensures Replace(a + b, pat, rep) == a + Replace(b, pat, rep)
  {
    FindSkip(a, b, pat);
    ReplaceShifted(a, b, pat, rep);
  }

  lemma ReplaceShifted(a: string, b: string, pat: string, rep: string)
    requires pat != []
    requires Find(a + b, pat) == if Find(b, pat) < 0 then -1 else |a| + Find(b, pat)
    ensures Replace(a + b, pat, rep) == a + Replace(b, pat, rep)
  {
    if Find(b, pat) >= 0 {
      var i := Find(b, pat);
      var rest := b[i + |pat|..];
      SlicesAfter(a, b, i, |pat|);
      ReplaceUnfold(a + b, pat, rep, a + b[..i], rest);
      ReplaceUnfold(b, pat, rep, b[..i], rest);
      Regroup4(a, b[..i], rep, Replace(rest, pat, rep));
    }
  }

  lemma SlicesAfter(a: string, b: string, i: nat, n: nat)
    requires i + n <= |b|
    ensures (a + b)[..|a| + i] == a + b[..i] && (a + b)[|a| + i + n..] == b[i + n..]
  {
  }

  lemma Regroup4(p: string, q: string, r: string, t: string)
    ensures p + q + r + t == p + (q + r + t)
  {
  }

  /** The text before the first occurrence, the replacement, then the rest replaced. */
  lemma ReplaceUnfold(s: string, pat: string, rep: string, before: string, after: string)
    requires pat != [] && Find(s, pat) >= 0
    requires s[..Find(s, pat)] == before && s[Find(s, pat) + |pat|..] == after
    ensures Replace(s, pat, rep) == before + rep + Replace(after, pat, rep)
  {
    assert Replace(s, pat, rep) == s[..Find(s, pat)] + rep + Replace(s[Find(s, pat) + |pat|..], pat, rep);
  }

  /** A text without the pattern's first character contains no occurrence. */
  lemma AbsentByFirstChar(s: string, pat: string)
    requires pat != [] && pat[0] !in s
    ensures !Contains(s, pat)
  {
    OccursHead(s, pat);
  }

  /** A one-character pattern occurs exactly where that character stands. */
  lemma OccursAtChar(s: string, c: char)
    ensures forall j :: OccursAt(s, [c], j) <==> 0 <= j < |s| && s[j] == c
  {
    forall j | 0 <= j < |s| ensures OccursAt(s, [c], j) <==> s[j] == c {
      assert s[j..j + 1] == [s[j]];
    }
  }

  lemma NoSuchChar(s: string, c: char, n: int)
    requires 0 <= n <= |s|
    requires forall j :: 0 <= j < n ==> !OccursAt(s, [c], j)
    ensures c !in s[..n]
  {
    OccursAtChar(s, c);
  }

  /** `s.split(c)` for a one-character separator. */
  function Split(s: string, c: char): (parts: seq<string>)
    ensures |parts| >= 1
    ensures forall k :: 0 <= k < |parts| ==> c !in parts[k]
    decreases |s|
  {
    var i := Find(s, [c]);
    if i < 0 then
      NoSuchChar(s, c, |s|);
      [s]
    else
      NoSuchChar(s, c, i);
      [s[..i]] + Split(s[i + 1..], c)
  }

  /** `c.join(parts)`, the inverse of Split. */
  function Join(parts: seq<string>, c: char): string {
    if |parts| == 0 then ""
    else if |parts| == 1 then parts[0]
    else parts[0] + [c] + Join(parts[1..], c)
  }

  /** Splitting text with no separator gives the text back as the only field. */
  lemma SplitSingle(s: string, c: char)
    ensures |Split(s, c)| == 1 ==> Split(s, c) == [s]
  {
    JoinSplit(s, c);
  }

  lemma {:induction false} JoinSplit(s: string, c: char)
    ensures Join(Split(s, c), c) == s
    decreases |s|
  {
    var i := Find(s, [c]);
    if i >= 0 {
      JoinSplit(s[i + 1..], c);
      SplitAt(s, c);
      JoinCons(s[..i], c, Split(s[i + 1..], c));
    }
  }

  /** Where the first separator stands, the text is cut in two. */
  lemma SplitAt(s: string, c: char)
    requires Find(s, [c]) >= 0
    ensures var i := Find(s, [c]);
            Split(s, c) == [s[..i]] + Split(s[i + 1..], c) && s == s[..i] + [c] + s[i + 1..]
  {
    var i := Find(s, [c]);
    assert s[i..i + 1] == [c];
  }

  lemma JoinCons(p: string, c: char, tail: seq<string>)
    requires |tail| >= 1
    ensures Join([p] + tail, c) == p + [c] + Join(tail, c)
  {
    assert ([p] + tail)[1..] == tail;
  }

  /** The first separator of p + [c] + rest is the one right after p. */
  lemma FirstSeparator(p: string, c: char, rest: string)
    requires c !in p
    ensures Find(p + [c] + rest, [c]) == |p|
  {
    var s := p + [c] + rest;
    OccursAtChar(s, c);
    assert s[|p|] == c;
    assert forall j :: 0 <= j < |p| ==> s[j] == p[j];
  }

  /** Splitting at the first separator. */
  lemma SplitCons(p: string, c: char, rest: string)
    requires c !in p
    ensures Split(p + [c] + rest, c) == [p] + Split(rest, c)
  {
    var s := p + [c] + rest;
    FirstSeparator(p, c, rest);
    assert s[..|p|] == p;
    assert s[|p| + 1..] == rest;
  }

  lemma NoSeparator(p: string, c: char)
    requires c !in p
    ensures Split(p, c) == [p]
  {
    OccursAtChar(p, c);
  }

  lemma {:induction false} SplitJoin(parts: seq<string>, c: char)
    requires |parts| >= 1
    requires forall k :: 0 <= k < |parts| ==> c !in parts[k]
    ensures Split(Join(parts, c), c) == parts
  {
    if |parts| == 1 {
      NoSeparator(parts[0], c);
    } else {
      SplitCons(parts[0], c, Join(parts[1..], c));
      SplitJoin(parts[1..], c);
      assert parts == [parts[0]] + parts[1..];
    }
  }

  function StripLeft(s: string): string {
    if |s| > 0 && IsSpace(s[0]) then StripLeft(s[1..]) else s
  }

  function StripRight(s: string): string {
    if |s| > 0 && IsSpace(s[|s| - 1]) then StripRight(s[..|s| - 1]) else s
  }

  /** `s.strip()` */
  function Strip(s: string): string {
    StripRight(StripLeft(s))
  }

  lemma StripUnchanged(s: string)
    requires s == [] || (!IsSpace(s[0]) && !IsSpace(s[|s| - 1]))
    ensures Strip(s) == s
  {
  }

  function StripTrailing(s: string, c: char): (r: string)
    ensures |r| <= |s| && r == s[..|r|]
    ensures r == [] || r[|r| - 1] != c
    ensures forall k :: |r| <= k < |s| ==> s[k] == c
  {
    if |s| > 0 && s[|s| - 1] == c then StripTrailing(s[..|s| - 1], c) else s
  }

  function LowerChar(c: char): char {
    if 'A' <= c <= 'Z' then (c as int + 32) as char else c
  }

  /** `s.lower()`, restricted to ASCII letters. */
  function Lower(s: string): (r: string)
    ensures |r| == |s|
    ensures forall k :: 0 <= k < |s| ==> r[k] == LowerChar(s[k])
  {
    seq(|s|, k requires 0 <= k < |s| => LowerChar(s[k]))
  }

  function DigitValue(c: char): nat
    requires IsDigit(c)
  {
    c as int - '0' as int
  }

  function DigitChar(n: nat): (c: char)
    requires n < 10
    ensures IsDigit(c) && DigitValue(c) == n
  {
    ('0' as int + n) as char
  }

  /** The digit part `int()` accepts, read from the right: digits, with a
      single underscore allowed between two digits and skipped; None for
      anything else, the empty text included. */
  function ParseDigits(d: string): Option<nat>
    decreases |d|
  {
    if |d| == 0 || !IsDigit(d[|d| - 1]) then None
    else
      var v := DigitValue(d[|d| - 1]);
      var init := d[..|d| - 1];
      if |init| == 0 then Some(v)
      else
        var rest := if init[|init| - 1] == '_' then init[..|init| - 1] else init;
        match ParseDigits(rest)
        case None => None
        case Some(w) => Some(10 * w + v)
  }

  /** `int(s)`: surrounding whitespace, an optional sign and the digits;
      anything else raises ValueError, modelled as None. */
  function ParseInt(s: string): Option<int> {
    var t := Strip(s);
    if |t| > 0 && (t[0] == '+' || t[0] == '-') then
      match ParseDigits(t[1..])
      case None => None
      case Some(v) => Some(if t[0] == '-' then -(v as int) else v as int)
    else
      match ParseDigits(t)
      case None => None
      case Some(v) => Some(v as int)
  }

  /** `str(n)` for a natural number. */
  function Decimal(n: nat): (s: string)
    ensures |s| >= 1 && forall k :: 0 <= k < |s| ==> IsDigit(s[k])
  {
    if n < 10 then [DigitChar(n)] else Decimal(n / 10) + [DigitChar(n % 10)]
  }

  /** Two digits with a leading zero, as `%02d` and strftime's `%H`, `%M`
      and `%S` print a number below 100. */
  function Pad2(n: nat): (s: string)
    requires n < 100
    ensures |s| == 2 && IsDigit(s[0]) && IsDigit(s[1])
    ensures DigitValue(s[0]) == n / 10 && DigitValue(s[1]) == n % 10
  {
    [DigitChar(n / 10), DigitChar(n % 10)]
  }

  lemma {:induction false} DecimalDigits(n: nat)
    ensures ParseDigits(Decimal(n)) == Some(n)
  {
    if n >= 10 {
      DecimalDigits(n / 10);
      var s := Decimal(n);
      assert s[..|s| - 1] == Decimal(n / 10);
    }
  }

  /** `int(str(n)) == n` */
  lemma ParseDecimal(n: nat)
    ensures ParseInt(Decimal(n)) == Some(n)
  {
    DecimalDigits(n);
    var s := Decimal(n);
    assert !IsSpace(s[0]) && !IsSpace(s[|s| - 1]);
    StripUnchanged(s);
  }

  /** `s[s.rfind(c) + 1:]`: the text after the last c, or all of s when c
      does not occur. */
  function AfterLast(s: string, c: char): (r: string)
    ensures c !in r
    ensures EndsWith(s, r)
  {
    s[RFind(s, c) + 1..]
  }

  /** `os.path.basename(p)` on POSIX: the text after the last '/'. */
  function Basename(p: string): string {
    AfterLast(p, '/')
  }

  /** `os.path.dirname(p)` on POSIX: the text up to the last '/', with trailing
      slashes removed unless it consists of slashes only. */
  function Dirname(p: string): string {
    var head := p[..RFind(p, '/') + 1];
    if head != [] && (exists k :: 0 <= k < |head| && head[k] != '/') then StripTrailing(head, '/')
    else head
  }

  /** Basename and Dirname take apart a path built as directory + '/' + name. */
  lemma PathParts(d: string, n: string)
    requires '/' !in n
    requires d != [] && d[|d| - 1] != '/'
    ensures Basename(d + "/" + n) == n
    ensures Dirname(d + "/" + n) == d
  {
    var p := d + "/" + n;
    assert p[|d|] == '/';
    var r := RFind(p, '/');
    assert forall j :: |d| < j < |p| ==> p[j] == n[j - |d| - 1];
    assert r == |d|;
    assert p[r + 1..] == n;
    var head := p[..r + 1];
    assert head == d + "/";
    assert head[|d| - 1] != '/';
    assert StripTrailing(head, '/') == StripTrailing(d, '/');
  }

  /** A path holding a '/' has a non-empty dirname. */
  lemma DirnameNonEmpty(p: string)
    requires '/' in p
    ensures Dirname(p) != ""
  {
    var r := RFind(p, '/');
    var head := p[..r + 1];
    assert head[r] == '/';
    if exists k :: 0 <= k < |head| && head[k] != '/' {
      var k :| 0 <= k < |head| && head[k] != '/';
      assert |StripTrailing(head, '/')| > k;
    }
  }

  /** A path with no '/' has an empty dirname. */
  lemma DirnameOfBareName(n: string)
    requires '/' !in n
    ensures Dirname(n) == "" && Basename(n) == n
  {
  }
}
