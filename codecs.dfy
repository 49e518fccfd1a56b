/** The conversion table of videotools.py: `get_codec_info` (1336-1355),
    the codec lists offered according to the features ffmpeg was built
    with (1450-1479), and the rotation filters of `do_video_rotate`
    (982-996). */
module Codecs {
  import opened Wrappers
  import opened PyStr
  import opened Naming
  import opened Template

  const VIDEO_H265: string := "Video H265"
  const VIDEO_H264: string := "Video H264"
  const VIDEO_VP8: string := "Video VP8"
  const VIDEO_VP9: string := "Video VP9"
  const AUDIO_MP3: string := "Extrair audio - MP3"
  const AUDIO_AAC: string := "Extrair audio - AAC"
  const AUDIO_FLAC: string := "Extrair audio - FLAC"
  const AUDIO_OGG: string := "Extrair audio - Ogg Vorbis"

  const VIDEO_CODECS: set<string> := {VIDEO_H265, VIDEO_H264, VIDEO_VP8, VIDEO_VP9}
  const AUDIO_CODECS: set<string> := {AUDIO_MP3, AUDIO_AAC, AUDIO_FLAC, AUDIO_OGG}

  /** The eight names differ from one another. */
  lemma CodecNames()
    ensures VIDEO_H265 != VIDEO_H264 && VIDEO_H265 != VIDEO_VP8 && VIDEO_H265 != VIDEO_VP9
    ensures VIDEO_H264 != VIDEO_VP8 && VIDEO_H264 != VIDEO_VP9 && VIDEO_VP8 != VIDEO_VP9
    ensures AUDIO_MP3 != AUDIO_AAC && AUDIO_MP3 != AUDIO_FLAC && AUDIO_MP3 != AUDIO_OGG
    ensures AUDIO_AAC != AUDIO_FLAC && AUDIO_AAC != AUDIO_OGG && AUDIO_FLAC != AUDIO_OGG
    ensures VIDEO_CODECS !! AUDIO_CODECS
  {
    assert VIDEO_H265[9] != VIDEO_H264[9];
    assert VIDEO_H265[6] != VIDEO_VP8[6] && VIDEO_H265[6] != VIDEO_VP9[6];
    assert VIDEO_H264[6] != VIDEO_VP8[6] && VIDEO_H264[6] != VIDEO_VP9[6];
    assert VIDEO_VP8[8] != VIDEO_VP9[8];
    assert AUDIO_MP3[16] != AUDIO_AAC[16] && AUDIO_MP3[16] != AUDIO_FLAC[16] && AUDIO_MP3[16] != AUDIO_OGG[16];
    assert AUDIO_AAC[16] != AUDIO_FLAC[16] && AUDIO_AAC[16] != AUDIO_OGG[16] && AUDIO_FLAC[16] != AUDIO_OGG[16];
    forall v, a | v in VIDEO_CODECS && a in AUDIO_CODECS
      ensures v != a
    {
      assert v[0] == 'V' && a[0] == 'E';
    }
  }

  /** The `{"params": ..., "sufixo": ...}` dictionary. */
  datatype CodecInfo = CodecInfo(params: seq<string>, suffix: string)

  const H265_INFO: CodecInfo := CodecInfo(["-c:v", "libx265", "-acodec", "aac", "-strict", "-2"], "_H265.mp4")
  const H264_INFO: CodecInfo := CodecInfo(["-c:v", "libx264", "-acodec", "aac", "-strict", "-2"], "_H264.mp4")
  const VP8_INFO: CodecInfo := CodecInfo(["-c:v", "libvpx", "-b:v", "1M", "-c:a", "libvorbis"], "_VP8.webm")
  const VP9_INFO: CodecInfo := CodecInfo(["-c:v", "libvpx-vp9", "-b:v", "2M", "-c:a", "libopus"], "_VP9.webm")
  const MP3_INFO: CodecInfo := CodecInfo(["-vn", "-f", "mp3", "-ab", "192000"], "_MP3.mp3")
  const FLAC_INFO: CodecInfo := CodecInfo(["-vn", "-acodec", "flac"], "_FLAC.flac")
  const AAC_INFO: CodecInfo := CodecInfo(["-vn", "-acodec", "aac", "-strict", "-2"], "AAC.m4a")
  const OGG_INFO: CodecInfo := CodecInfo(["-vn", "-acodec", "libvorbis"], "_Vorbis.ogg")

  /** `get_codec_info(codec)`: the ffmpeg parameters and the suffix of the
      new file for each of the eight codecs, None for any other name. */
  function GetCodecInfo(codec: string): (r: Option<CodecInfo>)
    ensures r.Some? <==> codec in VIDEO_CODECS + AUDIO_CODECS
    ensures codec in VIDEO_CODECS ==> |r.value.params| == 6 && r.value.params[0] == "-c:v"
    ensures codec in AUDIO_CODECS ==> |r.value.params| >= 3 && r.value.params[0] == "-vn"
  {
    if codec == VIDEO_H265 then Some(H265_INFO)
    else if codec == VIDEO_H264 then Some(H264_INFO)
    else if codec == VIDEO_VP8 then Some(VP8_INFO)
    else if codec == VIDEO_VP9 then Some(VP9_INFO)
    else if codec == AUDIO_MP3 then Some(MP3_INFO)
    else if codec == AUDIO_FLAC then Some(FLAC_INFO)
    else if codec == AUDIO_AAC then Some(AAC_INFO)
    else if codec == AUDIO_OGG then Some(OGG_INFO)
    else None
  }

  /** No parameter and no suffix of the table holds a placeholder: the
      expansion of the argument list leaves the parameters as they are, and
      the suffix is appended to the stem unchanged. */
  lemma CodecInfoHasNoPlaceholder(codec: string)
    requires GetCodecInfo(codec).Some?
    ensures Plain(GetCodecInfo(codec).value)
  {
    H26xEntriesPlain();
    VpxEntriesPlain();
    Mp3FlacEntriesPlain();
    AacVorbisEntriesPlain();
  }

  predicate Plain(info: CodecInfo) {
    (forall k :: 0 <= k < |info.params| ==> '$' !in info.params[k]) && '$' !in info.suffix
  }

  lemma H26xEntriesPlain()
    ensures Plain(H265_INFO) && Plain(H264_INFO)
  {
  }

  lemma VpxEntriesPlain()
    ensures Plain(VP8_INFO) && Plain(VP9_INFO)
  {
  }

  lemma Mp3FlacEntriesPlain()
    ensures Plain(MP3_INFO) && Plain(FLAC_INFO)
  {
  }

  lemma AacVorbisEntriesPlain()
    ensures Plain(AAC_INFO) && Plain(OGG_INFO)
  {
  }

  /** The conversion (videotools.py:844-854) names its new file after the
      table: converting "d/s.e" gives "d/s" followed by the codec's suffix. */
  lemma ConvertedName(codec: string, d: string, s: string, e: string)
    requires GetCodecInfo(codec).Some?
    requires d != [] && d[|d| - 1] != '/'
    requires '/' !in s && '/' !in e && '.' !in e
    requires '$' !in d && '$' !in s
    ensures Destination(d + "/" + s + "." + e, Some(GetCodecInfo(codec).value.suffix), None) ==
            d + "/" + s + GetCodecInfo(codec).value.suffix
  {
    var suffix := GetCodecInfo(codec).value.suffix;
    CodecInfoHasNoPlaceholder(codec);
    DestinationIn(d, s, e, Some(suffix));
    var name := d + "/" + s + suffix;
    assert '$' !in name;
    AbsentByFirstChar(name, EXT_PLACEHOLDER);
    ReplaceAbsent(name, EXT_PLACEHOLDER, e);
  }

  /** Every suffix but the AAC one starts with '_'; the AAC file is named
      "<stem>AAC.m4a". */
  lemma OnlyAacLacksUnderscore(codec: string)
    requires GetCodecInfo(codec).Some?
    ensures GetCodecInfo(codec).value.suffix[0] == '_' <==> codec != AUDIO_AAC
  {
    CodecNames();
  }

  /** `CODECS_VIDEO` as built at start-up: H264, H265, then VP8 and VP9,
      each present only when ffmpeg reports the library it needs. */
  method OfferedVideoCodecs(features: seq<string>) returns (video: seq<string>)
    ensures VIDEO_H264 in video <==> "--enable-libx264" in features
    ensures VIDEO_H265 in video <==> "--enable-libx265" in features
    ensures VIDEO_VP8 in video <==> "--enable-libvpx" in features
    ensures VIDEO_VP9 in video <==> "--enable-libvpx" in features
    ensures forall k :: 0 <= k < |video| ==> video[k] in VIDEO_CODECS
    ensures forall j, k :: 0 <= j < k < |video| ==> video[j] != video[k]
  {
    CodecNames();
    video := [];
    if "--enable-libx264" in features {
      video := video + [VIDEO_H264];
    }
    if "--enable-libx265" in features {
      video := video + [VIDEO_H265];
    }
    if "--enable-libvpx" in features {
      video := video + [VIDEO_VP8];
      video := video + [VIDEO_VP9];
    }
  }

  /** `CODECS_AUDIO` as built at start-up: AAC and FLAC always, then MP3 and
      Vorbis when ffmpeg reports the library each needs. */
  method OfferedAudioCodecs(features: seq<string>) returns (audio: seq<string>)
    ensures |audio| >= 2 && audio[0] == AUDIO_AAC && audio[1] == AUDIO_FLAC
    ensures AUDIO_MP3 in audio <==> "--enable-libmp3lame" in features
    ensures AUDIO_OGG in audio <==> "--enable-libvorbis" in features
    ensures forall k :: 0 <= k < |audio| ==> audio[k] in AUDIO_CODECS
    ensures forall j, k :: 0 <= j < k < |audio| ==> audio[j] != audio[k]
  {
    CodecNames();
    audio := [AUDIO_AAC, AUDIO_FLAC];
    if "--enable-libmp3lame" in features {
      audio := audio + [AUDIO_MP3];
    }
    if "--enable-libvorbis" in features {
      audio := audio + [AUDIO_OGG];
    }
  }

  /** The seven choices `do_video_rotate` offers, and the filter of each. */
  const ROTATION_OPTIONS: seq<string> := [
    "90 Graus sentido horário", "90 Graus sentido anti-horário", "180 Graus",
    "90 Graus sentido anti-horário com flip vertical", "90 Graus sentido horário com flip vertical",
    "Flip horizontal", "Flip vertical"]
  const ROTATION_FILTERS: seq<string> := [
    "transpose=1", "transpose=2", "transpose=2,transpose=2", "transpose=0", "transpose=3",
    "hflip", "vflip"]
  const ROTATION_SUFFIX: string := "_rotated.${EXTENSAO}"

  /** A rotated copy of "d/s.e" is written beside it as "d/s_rotated.e". */
  lemma RotatedName(d: string, s: string, e: string)
    requires d != [] && d[|d| - 1] != '/'
    requires '/' !in s && '/' !in e && '.' !in e
    requires '$' !in d && '$' !in s
    ensures Destination(d + "/" + s + "." + e, Some(ROTATION_SUFFIX), None) == d + "/" + s + "_rotated." + e
  {
    assert ROTATION_SUFFIX == "_rotated." + EXT_PLACEHOLDER + "";
    SuffixWithExtension(d, s, e, "_rotated.", "");
    assert d + "/" + s + "_rotated." + e + "" == d + "/" + s + "_rotated." + e;
  }

  /** The parameters of the rotation with filter `filtro`. */
  function RotationArgs(filtro: string): (params: seq<string>)
    ensures |params| == 11 && params[1] == ORIGEM && params[3] == filtro && params[10] == DESTINO
  {
    ["-i", ORIGEM, "-vf", filtro, "-q:a", "0", "-q:v", "0", "-strict", "-2", DESTINO]
  }

  lemma OptionsDistinct()
    ensures |ROTATION_OPTIONS| == |ROTATION_FILTERS| == 7
    ensures forall j, k :: 0 <= j < k < 7 ==> ROTATION_OPTIONS[j] != ROTATION_OPTIONS[k]
  {
  }

  /** The loop over `enumerate(opcoes)`: the parameters of the option
      chosen, and None for an answer that is none of them (the source then
      reaches `params` unbound). */
  method RotationParams(info: string) returns (params: Option<seq<string>>)
    ensures params.Some? <==> info in ROTATION_OPTIONS
    ensures forall k :: 0 <= k < |ROTATION_OPTIONS| && ROTATION_OPTIONS[k] == info ==>
              params == Some(RotationArgs(ROTATION_FILTERS[k]))
  {
    OptionsDistinct();
    params := None;
    var idx := 0;
    while idx < |ROTATION_OPTIONS|
      invariant 0 <= idx <= |ROTATION_OPTIONS|
      invariant params.Some? <==> info in ROTATION_OPTIONS[..idx]
      invariant params.Some? ==> exists k :: 0 <= k < idx && ROTATION_OPTIONS[k] == info &&
                                   params.value == RotationArgs(ROTATION_FILTERS[k])
    {
      if ROTATION_OPTIONS[idx] == info {
        params := Some(RotationArgs(ROTATION_FILTERS[idx]));
      }
      idx := idx + 1;
    }
    assert ROTATION_OPTIONS[..idx] == ROTATION_OPTIONS;
  }

  /** The filter survives the expansion of the argument list: only the
      input and the new file are put in. */
  lemma RotationFilterKept(k: nat, origem: string, destino: string, extensao: string)
    requires k < |ROTATION_FILTERS|
    ensures Expand(ROTATION_FILTERS[k], origem, destino, extensao) == ROTATION_FILTERS[k]
  {
    assert '$' !in ROTATION_FILTERS[k];
  }
}
