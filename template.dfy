/** The ffmpeg argument list `processa_videos` builds for one input
    (videotools.py:141-148): the ffmpeg path, "-hide_banner" and the
    operation's parameters, each element then rewritten in place with every
    `${ORIGEM}`, then every `${DESTINO}`, then every `${EXTENSAO}` replaced. */
module Template {
  import opened PyStr

  const ORIGEM: string := "${ORIGEM}"
  const DESTINO: string := "${DESTINO}"
  const EXTENSAO: string := "${EXTENSAO}"
  const HIDE_BANNER: string := "-hide_banner"

  /** The three `replace` calls applied to one element, in the source's
      order. An element holding no placeholder passes unchanged; ExpandAll
      says what becomes of one that holds several. */
  function Expand(arg: string, origem: string, destino: string, extensao: string): (r: string)
    ensures '$' !in arg ==> r == arg
  {
    PlainUntouched(arg, origem, destino, extensao);
    Replace(Replace(Replace(arg, ORIGEM, origem), DESTINO, destino), EXTENSAO, extensao)
  }

  /** The argument list once every element is expanded. */
  function Arguments(ffmpeg: string, params: seq<string>, origem: string, destino: string, extensao: string): (r: seq<string>)
    ensures |r| == 2 + |params|
    ensures r[0] == Expand(ffmpeg, origem, destino, extensao) && r[1] == HIDE_BANNER
    ensures forall k :: 2 <= k < |r| ==> r[k] == Expand(params[k - 2], origem, destino, extensao)
  {
    [Expand(ffmpeg, origem, destino, extensao), HIDE_BANNER] +
      seq(|params|, k requires 0 <= k < |params| => Expand(params[k], origem, destino, extensao))
  }

  /** `args = [ffmpeg, "-hide_banner"]; args.extend(params)`, then the loop
      that rewrites `args[idx]` for every index. */
  method BuildArgs(ffmpeg: string, params: seq<string>, origem: string, destino: string, extensao: string)
    returns (args: seq<string>)
    ensures args == Arguments(ffmpeg, params, origem, destino, extensao)
  {
    args := [ffmpeg, HIDE_BANNER];
    args := args + params;
    ghost var template := args;
    var idx := 0;
    while idx < |args|
      invariant 0 <= idx <= |args| == |template|
      invariant forall k :: 0 <= k < idx ==> args[k] == Expand(template[k], origem, destino, extensao)
      invariant forall k :: idx <= k < |args| ==> args[k] == template[k]
    {
      var arg := args[idx];
      arg := Replace(arg, ORIGEM, origem);
      arg := Replace(arg, DESTINO, destino);
      arg := Replace(arg, EXTENSAO, extensao);
      args := args[idx := arg];
      idx := idx + 1;
    }
    ExpandedTemplate(ffmpeg, params, origem, destino, extensao, template, args);
  }

  /** A list whose every element is the expansion of the corresponding
      template element is the argument list. */
  lemma ExpandedTemplate(ffmpeg: string, params: seq<string>, origem: string, destino: string, extensao: string,
                         template: seq<string>, args: seq<string>)
    requires template == [ffmpeg, HIDE_BANNER] + params && |args| == |template|
    requires forall k :: 0 <= k < |args| ==> args[k] == Expand(template[k], origem, destino, extensao)
    ensures args == Arguments(ffmpeg, params, origem, destino, extensao)
  {
    BannerKept(origem, destino, extensao);
    TemplateShape(ffmpeg, params, template);
  }

  lemma BannerKept(origem: string, destino: string, extensao: string)
    ensures Expand(HIDE_BANNER, origem, destino, extensao) == HIDE_BANNER
  {
    assert '$' !in HIDE_BANNER;
  }

  lemma TemplateShape(ffmpeg: string, params: seq<string>, template: seq<string>)
    requires template == [ffmpeg, HIDE_BANNER] + params
    ensures template[0] == ffmpeg && template[1] == HIDE_BANNER
    ensures forall k :: 2 <= k < |template| ==> template[k] == params[k - 2]
  {
  }

  /** Text without '$' holds none of the three placeholders. */
  lemma PlainUntouched(arg: string, origem: string, destino: string, extensao: string)
    ensures '$' !in arg ==>
              Replace(Replace(Replace(arg, ORIGEM, origem), DESTINO, destino), EXTENSAO, extensao) == arg
  {
    if '$' !in arg {
      AbsentByFirstChar(arg, ORIGEM);
      AbsentByFirstChar(arg, DESTINO);
      AbsentByFirstChar(arg, EXTENSAO);
    }
  }

  /** A placeholder standing alone becomes its value, when that value holds
      no placeholder of its own. */
  lemma ExpandSource(origem: string, destino: string, extensao: string)
    requires '$' !in origem
    ensures Expand(ORIGEM, origem, destino, extensao) == origem
  {
    ReplaceFirst("", ORIGEM, origem, "");
    assert "" + ORIGEM + "" == ORIGEM;
    assert Replace("", ORIGEM, origem) == "";
    assert "" + origem + "" == origem;
    ExpandPlainTail(origem, destino, extensao);
  }

  lemma ExpandPlainTail(s: string, destino: string, extensao: string)
    requires '$' !in s
    ensures Replace(Replace(s, DESTINO, destino), EXTENSAO, extensao) == s
  {
    AbsentByFirstChar(s, DESTINO);
    AbsentByFirstChar(s, EXTENSAO);
  }

  lemma ExpandDestination(origem: string, destino: string, extensao: string)
    requires '$' !in destino
    ensures Expand(DESTINO, origem, destino, extensao) == destino
  {
    PlaceholdersShape();
    AbsentOther(DESTINO, ORIGEM);
    ReplaceFirst("", DESTINO, destino, "");
    assert "" + DESTINO + "" == DESTINO;
    assert Replace("", DESTINO, destino) == "";
    assert "" + destino + "" == destino;
    AbsentByFirstChar(destino, EXTENSAO);
  }

  /** prefix + "${EXTENSAO}" has the extension put in place. */
  lemma ExpandExtensionAfter(p: string, origem: string, destino: string, extensao: string)
    requires '$' !in p && '$' !in extensao
    ensures Expand(p + EXTENSAO, origem, destino, extensao) == p + extensao
  {
    PlaceholdersShape();
    AbsentAfter(p, EXTENSAO, ORIGEM);
    AbsentAfter(p, EXTENSAO, DESTINO);
    ReplaceFirst(p, EXTENSAO, extensao, "");
    assert p + EXTENSAO + "" == p + EXTENSAO;
    assert Replace("", EXTENSAO, extensao) == "";
    assert p + extensao + "" == p + extensao;
  }

  /** One placeholder text is never found inside another's. */
  lemma AbsentOther(a: string, b: string)
    requires Placeholder(a) && Placeholder(b) && a[2] != b[2]
    ensures !Contains(a, b)
  {
    AbsentAfter("", a, b);
    assert "" + a == a;
  }

  /** The shape the three placeholders share: "${", a name, "}", with '$'
      nowhere else. */
  predicate Placeholder(ph: string) {
    |ph| >= 3 && ph[0] == '$' && ph[1] == '{' && '$' !in ph[1..]
  }

  lemma PlaceholdersShape()
    ensures Placeholder(ORIGEM) && Placeholder(DESTINO) && Placeholder(EXTENSAO)
    ensures ORIGEM[2] == 'O' && DESTINO[2] == 'D' && EXTENSAO[2] == 'E'
  {
  }

  /** p + ph, with no '$' in p, contains no placeholder q that differs from
      ph in its first letter. */
  lemma AbsentAfter(p: string, ph: string, q: string)
    requires '$' !in p
    requires Placeholder(ph) && Placeholder(q) && ph[2] != q[2]
    ensures !Contains(p + ph, q)
  {
    var s := p + ph;
    OccursChars(s, q);
    assert forall j :: 0 <= j < |p| ==> s[j] == p[j];
    assert forall j :: |p| < j < |s| ==> s[j] == ph[1..][j - |p| - 1];
    assert s[|p| + 2] == ph[2];
  }

  /** One of the three placeholders the parameters may hold. */
  predicate IsPlaceholder(h: string) {
    h == ORIGEM || h == DESTINO || h == EXTENSAO
  }

  /** A template element cut at its placeholders: parts[0], holes[0],
      parts[1], ..., holes[n - 1], parts[n]. */
  function Interleave(parts: seq<string>, holes: seq<string>): string
    requires |parts| == |holes| + 1
    decreases |holes|
  {
    if |holes| == 0 then parts[0] else parts[0] + holes[0] + Interleave(parts[1..], holes[1..])
  }

  /** The holes once every `ph` among them is `v`. */
  function Fill(holes: seq<string>, ph: string, v: string): seq<string> {
    seq(|holes|, k requires 0 <= k < |holes| => if holes[k] == ph then v else holes[k])
  }

  /** What `processa_videos` puts in place of the placeholder `h`. */
  function Value(h: string, origem: string, destino: string, extensao: string): string {
    if h == ORIGEM then origem else if h == DESTINO then destino else extensao
  }

  function Values(holes: seq<string>, origem: string, destino: string, extensao: string): seq<string> {
    seq(|holes|, k requires 0 <= k < |holes| => Value(holes[k], origem, destino, extensao))
  }

  /** Every placeholder of an element is replaced, wherever it stands and
      however often it occurs, and the text between the placeholders is
      kept: an element made of '$'-free parts and placeholders becomes the
      same parts with each placeholder's value in its place, as long as the
      values hold no '$' themselves. */
  lemma ExpandAll(parts: seq<string>, holes: seq<string>, origem: string, destino: string, extensao: string)
    requires |parts| == |holes| + 1
    requires forall k :: 0 <= k < |parts| ==> '$' !in parts[k]
    requires forall k :: 0 <= k < |holes| ==> IsPlaceholder(holes[k])
    requires '$' !in origem && '$' !in destino && '$' !in extensao
    ensures Expand(Interleave(parts, holes), origem, destino, extensao) ==
            Interleave(parts, Values(holes, origem, destino, extensao))
  {
    var h1 := Fill(holes, ORIGEM, origem);
    var h2 := Fill(h1, DESTINO, destino);
    ReplaceHoles(parts, holes, ORIGEM, origem);
    ReplaceHoles(parts, h1, DESTINO, destino);
    ReplaceHoles(parts, h2, EXTENSAO, extensao);
    FilledValues(holes, origem, destino, extensao);
  }

  /** The three passes together give each placeholder its own value. */
  lemma FilledValues(holes: seq<string>, origem: string, destino: string, extensao: string)
    requires forall k :: 0 <= k < |holes| ==> IsPlaceholder(holes[k])
    requires '$' !in origem && '$' !in destino && '$' !in extensao
    ensures Fill(Fill(Fill(holes, ORIGEM, origem), DESTINO, destino), EXTENSAO, extensao) ==
            Values(holes, origem, destino, extensao)
  {
    assert DESTINO[0] == '$' && EXTENSAO[0] == '$';
    assert origem != DESTINO && origem != EXTENSAO && destino != EXTENSAO;
  }

  /** One `replace` pass over an element cut at its placeholders: the holes
      equal to `ph` become `v`, and nothing else changes. Holes may already
      be values without '$'. */
  lemma {:induction false} ReplaceHoles(parts: seq<string>, holes: seq<string>, ph: string, v: string)
    requires |parts| == |holes| + 1
    requires forall k :: 0 <= k < |parts| ==> '$' !in parts[k]
    requires forall k :: 0 <= k < |holes| ==> '$' !in holes[k] || IsPlaceholder(holes[k])
    requires IsPlaceholder(ph) && '$' !in v
    ensures Replace(Interleave(parts, holes), ph, v) == Interleave(parts, Fill(holes, ph, v))
    decreases |holes|
  {
    PlaceholdersShape();
    if |holes| == 0 {
      AbsentByFirstChar(parts[0], ph);
      ReplaceAbsent(parts[0], ph, v);
    } else {
      var rest := Interleave(parts[1..], holes[1..]);
      ReplaceHoles(parts[1..], holes[1..], ph, v);
      assert Fill(holes, ph, v)[1..] == Fill(holes[1..], ph, v);
      if holes[0] == ph {
        ReplaceFirst(parts[0], ph, v, rest);
      } else {
        NoStartIn(parts[0], holes[0], ph, rest);
        ReplaceSkip(parts[0] + holes[0], rest, ph, v);
      }
    }
  }

  /** No occurrence of the placeholder `ph` starts in p + h, when p has no
      '$' and h is a value without '$' or another placeholder. */
  lemma NoStartIn(p: string, h: string, ph: string, rest: string)
    requires '$' !in p && ('$' !in h || IsPlaceholder(h))
    requires IsPlaceholder(ph) && h != ph
    ensures forall j :: 0 <= j < |p + h| ==> !OccursAt(p + h + rest, ph, j)
  {
    PlaceholdersShape();
    var s := p + h + rest;
    OccursChars(s, ph);
    forall j | 0 <= j < |p + h| ensures !OccursAt(s, ph, j) {
      if j < |p| {
        assert s[j] == p[j];
      } else if '$' !in h {
        assert s[j] == h[j - |p|];
      } else if j > |p| {
        assert s[j] == h[1..][j - |p| - 1];
      } else {
        assert s[j + 2] == h[2];
      }
    }
  }

  /** "${ORIGEM}_${ORIGEM}.${EXTENSAO}": both occurrences of the source are
      replaced, and the text after them is kept. */
  lemma ExpandRepeated(origem: string, destino: string, extensao: string)
    requires '$' !in origem && '$' !in destino && '$' !in extensao
    ensures Expand(ORIGEM + "_" + ORIGEM + "." + EXTENSAO, origem, destino, extensao) ==
            origem + "_" + origem + "." + extensao
  {
    var parts, holes := ["", "_", ".", ""], [ORIGEM, ORIGEM, EXTENSAO];
    InterleaveThree(parts, holes);
    ExpandAll(parts, holes, origem, destino, extensao);
    var values := Values(holes, origem, destino, extensao);
    assert values == [origem, origem, extensao];
    InterleaveThree(parts, values);
    DropEmpty(origem, "_", origem, ".", extensao);
    DropEmpty(ORIGEM, "_", ORIGEM, ".", EXTENSAO);
  }

  lemma InterleaveThree(parts: seq<string>, holes: seq<string>)
    requires |parts| == 4 && |holes| == 3
    ensures Interleave(parts, holes) == parts[0] + holes[0] + parts[1] + holes[1] + parts[2] + holes[2] + parts[3]
  {
    assert Interleave(parts[3..], holes[3..]) == parts[3];
    assert Interleave(parts[2..], holes[2..]) == parts[2] + holes[2] + parts[3];
  }

  lemma DropEmpty(a: string, b: string, c: string, d: string, e: string)
    ensures "" + a + b + c + d + e + "" == a + b + c + d + e
  {
  }

  /** Replacing is not done again on its own result: "${ORIG${ORIGEM}EM}"
      (`outer`, the placeholder, `tail`) with an empty source path comes out
      as "${ORIGEM}", a placeholder that is left in place. The parts between
      placeholders must be free of '$' for ExpandAll. */
  lemma NestedPlaceholderRemains(outer: string, tail: string, destino: string, extensao: string)
    requires outer == "${ORIG" && tail == "EM}"
    ensures Expand(outer + ORIGEM + tail, "", destino, extensao) == ORIGEM
  {
    NestedFirstPass(outer, tail);
    NestedPieces(outer, tail);
    PlaceholdersShape();
    AbsentOther(ORIGEM, DESTINO);
    AbsentOther(ORIGEM, EXTENSAO);
    ReplaceAbsent(ORIGEM, DESTINO, destino);
    ReplaceAbsent(ORIGEM, EXTENSAO, extensao);
  }

  /** The inner "${ORIGEM}" is removed and the outer pieces close up. */
  lemma NestedFirstPass(outer: string, tail: string)
    requires outer == "${ORIG" && tail == "EM}"
    ensures Replace(outer + ORIGEM + tail, ORIGEM, "") == outer + tail
  {
    assert outer + ORIGEM + tail == outer + (ORIGEM + tail);
    NestedOuterKept(outer, tail);
    InnerRemoved(tail);
  }

  lemma NestedPieces(outer: string, tail: string)
    requires outer == "${ORIG" && tail == "EM}"
    ensures outer + tail == ORIGEM
  {
  }

  lemma NestedOuterKept(outer: string, tail: string)
    requires outer == "${ORIG" && tail == "EM}"
    ensures Replace(outer + (ORIGEM + tail), ORIGEM, "") == outer + Replace(ORIGEM + tail, ORIGEM, "")
  {
    NestedStart(outer, tail);
    ReplaceSkip(outer, ORIGEM + tail, ORIGEM, "");
  }

  lemma InnerRemoved(tail: string)
    requires '$' !in tail
    ensures Replace(ORIGEM + tail, ORIGEM, "") == tail
  {
    ReplaceFirst([], ORIGEM, "", tail);
    assert [] + ORIGEM + tail == ORIGEM + tail;
    AbsentByFirstChar(tail, ORIGEM);
    ReplaceAbsent(tail, ORIGEM, "");
    assert [] + [] + tail == tail;
  }

  /** In "${ORIG${ORIGEM}EM}" the first occurrence of "${ORIGEM}" is the inner one. */
  lemma NestedStart(outer: string, tail: string)
    requires outer == "${ORIG" && tail == "EM}"
    ensures forall j :: 0 <= j < |outer| ==> !OccursAt(outer + (ORIGEM + tail), ORIGEM, j)
  {
    var s := outer + (ORIGEM + tail);
    OccursChars(s, ORIGEM);
    assert s[6] == '$' && ORIGEM[6] == 'E' && ORIGEM[0] == '$';
    assert forall j :: 1 <= j < 6 ==> s[j] != '$';
  }

  /** The argument list ["-i", "${ORIGEM}", "out.${EXTENSAO}"] expanded for
      the input "a.mov" is ["-i", "a.mov", "out.mov"]. */
  lemma ExpandExample(destino: string)
    requires '$' !in destino
    ensures Expand("-i", "a.mov", destino, "mov") == "-i"
    ensures Expand(ORIGEM, "a.mov", destino, "mov") == "a.mov"
    ensures Expand("out." + EXTENSAO, "a.mov", destino, "mov") == "out.mov"
  {
    assert '$' !in "-i";
    ExpandSource("a.mov", destino, "mov");
    OutputExample(destino);
  }

  lemma OutputExample(destino: string)
    requires '$' !in destino
    ensures Expand("out." + EXTENSAO, "a.mov", destino, "mov") == "out.mov"
  {
    ExpandExtensionAfter("out.", "a.mov", destino, "mov");
  }

  /** The order of the replacements shows: a source path that itself
      contains "${EXTENSAO}" has it replaced by the extension, since that
      replacement runs after the source path was put in. */
  lemma SubstitutionOrderShows(p: string, destino: string, extensao: string)
    requires '$' !in p && '$' !in extensao
    ensures Expand(ORIGEM, p + EXTENSAO, destino, extensao) == p + extensao
    ensures Expand(ORIGEM, p + EXTENSAO, destino, extensao) != p + EXTENSAO
  {
    ReplaceFirst("", ORIGEM, p + EXTENSAO, "");
    assert "" + ORIGEM + "" == ORIGEM;
    assert Replace("", ORIGEM, p + EXTENSAO) == "";
    assert "" + (p + EXTENSAO) + "" == p + EXTENSAO;
    PlaceholdersShape();
    AbsentAfter(p, EXTENSAO, DESTINO);
    ReplaceFirst(p, EXTENSAO, extensao, "");
    assert p + EXTENSAO + "" == p + EXTENSAO;
    assert Replace("", EXTENSAO, extensao) == "";
    assert p + extensao + "" == p + extensao;
    assert (p + EXTENSAO)[|p|] == '$';
    assert |p + extensao| <= |p| || (p + extensao)[|p|] != '$';
  }
}
