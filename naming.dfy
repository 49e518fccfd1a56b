/** How `VideoProgressDialog` names the file each input is converted to
    (videotools.py, `__init__` and the start of `processa_videos`). */
module Naming {
  import opened Wrappers
  import opened PyStr

  const EXT_PLACEHOLDER: string := "${EXTENSAO}"

  /** `nome[nome.rfind(".") + 1:]`: the text after the last '.', or the whole
      name when there is none. */
  function Extension(nome: string): string {
    AfterLast(nome, '.')
  }

  /** `nome[:nome.rfind(".")]`: the text before the last '.'; with no '.',
      rfind answers -1 and the slice drops the last character. */
  function Stem(nome: string): string {
    Slice(nome, 0, RFind(nome, '.'))
  }

  /** The destination of one input (videotools.py:124-138): the input's
      directory, the stem of its name and the suffix (the bare extension when
      no suffix is given), with `${EXTENSAO}` replaced by the extension; a
      fixed destination replaces all of it. */
  function Destination(arquivo: string, sufixo: Option<string>, destino: Option<string>): (r: string)
    ensures destino.Some? ==> r == destino.value
  {
    if destino.Some? then destino.value else NewName(Dirname(arquivo), Basename(arquivo), sufixo)
  }

  /** `os.path.dirname(arquivo) + os.sep + nome[:nome.rfind(".")] + sufixoArquivo`,
      then `.replace("${EXTENSAO}", extensao)`. */
  function NewName(dir: string, nome: string, sufixo: Option<string>): string {
    var extensao := Extension(nome);
    var suffix := if sufixo.None? then extensao else sufixo.value;
    Replace(dir + "/" + Stem(nome) + suffix, EXT_PLACEHOLDER, extensao)
  }

  /** videotools.py:59-61: a fixed destination makes the list of files to
      process the one-element list holding it. */
  function EffectiveFiles(arquivos: seq<string>, destino: Option<string>): (fs: seq<string>)
    ensures destino.Some? ==> fs == [destino.value]
    ensures destino.None? ==> fs == arquivos
  {
    if destino.Some? then [destino.value] else arquivos
  }

  /** A name with a '.' is its stem, the last '.', and its extension. */
  lemma NameParts(nome: string)
    requires '.' in nome
    ensures nome == Stem(nome) + "." + Extension(nome)
    ensures '.' !in Extension(nome)
  {
    var i := RFind(nome, '.');
    assert nome[i] == '.';
    assert Stem(nome) == nome[..i];
    assert nome == nome[..i] + [nome[i]] + nome[i + 1..];
  }

  /** The stem and extension of a name built as stem + "." + extension. */
  lemma NameOf(s: string, e: string)
    requires '.' !in e
    ensures Extension(s + "." + e) == e
    ensures Stem(s + "." + e) == s
  {
    var n := s + "." + e;
    RFindLast(s, '.', e);
    assert n[|s| + 1..] == e;
    assert n[..|s|] == s;
  }

  /** With no '.' in the name, the extension is the whole name and the stem
      loses the name's last character. */
  lemma NoDot(nome: string)
    requires '.' !in nome
    ensures Extension(nome) == nome
    ensures Stem(nome) == if nome == [] then [] else nome[..|nome| - 1]
  {
    RFindAbsent(nome, '.');
  }

  /** Without a suffix the extension is appended without its dot:
      "d/a.mov" becomes "d/amov". */
  lemma DefaultSuffixDropsDot(d: string, s: string, e: string)
    requires d != [] && d[|d| - 1] != '/'
    requires '/' !in s && '/' !in e && '.' !in e
    requires '$' !in d && '$' !in s && '$' !in e
    ensures Destination(d + "/" + s + "." + e, None, None) == d + "/" + s + e
  {
    DestinationIn(d, s, e, None);
    NoPlaceholder(d, s, e, e);
  }

  /** A suffix p + "${EXTENSAO}" + q puts the extension between p and q:
      "d/a.mov" with "_rotated.${EXTENSAO}" becomes "d/a_rotated.mov". */
  lemma SuffixWithExtension(d: string, s: string, e: string, p: string, q: string)
    requires d != [] && d[|d| - 1] != '/'
    requires '/' !in s && '/' !in e && '.' !in e
    requires '$' !in d && '$' !in s && '$' !in p && '$' !in q
    ensures Destination(d + "/" + s + "." + e, Some(p + EXT_PLACEHOLDER + q), None) == d + "/" + s + p + e + q
  {
    DestinationIn(d, s, e, Some(p + EXT_PLACEHOLDER + q));
    ExtensionInSuffix(d + "/" + s, p, e, q);
  }

  /** The new name of "d/s.e", before the replacement is looked at. */
  lemma DestinationIn(d: string, s: string, e: string, sufixo: Option<string>)
    requires d != [] && d[|d| - 1] != '/'
    requires '/' !in s && '/' !in e && '.' !in e
    ensures Destination(d + "/" + s + "." + e, sufixo, None) ==
              Replace(d + "/" + s + (if sufixo.None? then e else sufixo.value), EXT_PLACEHOLDER, e)
  {
    var nome := s + "." + e;
    assert d + "/" + s + "." + e == d + "/" + nome;
    PathParts(d, nome);
    NameOf(s, e);
  }

  /** The suffix's placeholder is the only one in the new name. */
  lemma ExtensionInSuffix(a: string, p: string, e: string, q: string)
    requires '$' !in a && '$' !in p && '$' !in q
    ensures Replace(a + (p + EXT_PLACEHOLDER + q), EXT_PLACEHOLDER, e) == a + p + e + q
  {
    assert a + (p + EXT_PLACEHOLDER + q) == (a + p) + EXT_PLACEHOLDER + q;
    ReplaceFirst(a + p, EXT_PLACEHOLDER, e, q);
    AbsentByFirstChar(q, EXT_PLACEHOLDER);
    ReplaceAbsent(q, EXT_PLACEHOLDER, e);
  }

  /** An input given without a directory is sent to the root directory:
      its dirname is empty and os.sep is prefixed to the name. */
  lemma BareNameGoesToRoot(arquivo: string, sufixo: Option<string>)
    requires '/' !in arquivo && '$' !in arquivo
    requires sufixo.Some? ==> '$' !in sufixo.value
    ensures Destination(arquivo, sufixo, None) ==
              "/" + Stem(arquivo) + (if sufixo.None? then Extension(arquivo) else sufixo.value)
  {
    DirnameOfBareName(arquivo);
    var suffix := if sufixo.None? then Extension(arquivo) else sufixo.value;
    StemChars(arquivo);
    NoPlaceholder("", Stem(arquivo), suffix, Extension(arquivo));
    assert "" + "/" == "/";
  }

  lemma StemChars(nome: string)
    ensures forall k :: 0 <= k < |Stem(nome)| ==> Stem(nome)[k] in nome
  {
    var r := RFind(nome, '.');
    var a, b := SliceIndex(|nome|, 0), SliceIndex(|nome|, r);
    assert forall k :: 0 <= k < |Stem(nome)| ==> Stem(nome)[k] == nome[a + k];
  }

  /** A name assembled from parts without '$' is left as it is. */
  lemma NoPlaceholder(dir: string, stem: string, suffix: string, ext: string)
    requires '$' !in dir && '$' !in stem && '$' !in suffix
    ensures Replace(dir + "/" + stem + suffix, EXT_PLACEHOLDER, ext) == dir + "/" + stem + suffix
  {
    var t := dir + "/" + stem + suffix;
    AbsentByFirstChar(t, EXT_PLACEHOLDER);
    ReplaceAbsent(t, EXT_PLACEHOLDER, ext);
  }

  /** Without a fixed destination the new file always lies in a named
      directory: its dirname is never empty. */
  lemma DestinationHasDirectory(arquivo: string, sufixo: Option<string>)
    ensures Dirname(Destination(arquivo, sufixo, None)) != ""
  {
    NewNameHasSeparator(Dirname(arquivo), Basename(arquivo), sufixo);
    DirnameNonEmpty(Destination(arquivo, sufixo, None));
  }

  /** The separator put between directory and name survives the replacement. */
  lemma NewNameHasSeparator(dir: string, nome: string, sufixo: Option<string>)
    ensures '/' in NewName(dir, nome, sufixo)
  {
    var suffix := if sufixo.None? then Extension(nome) else sufixo.value;
    SeparatorKept(dir, Stem(nome), suffix, Extension(nome));
  }

  lemma SeparatorKept(dir: string, stem: string, suffix: string, ext: string)
    ensures '/' in Replace(dir + "/" + stem + suffix, EXT_PLACEHOLDER, ext)
  {
    var t := dir + "/" + stem + suffix;
    assert t[|dir|] == '/';
    assert '/' !in EXT_PLACEHOLDER;
    ReplaceKeeps(t, EXT_PLACEHOLDER, ext, '/');
  }
}
