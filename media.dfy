/** Media-type classification of a staged audio file: the lowered extension
    of the path is looked up in a three-entry table, with `audio/mpeg` as the
    fallback for every other extension, the empty one included. */
module Media {
  import opened Strings
  import opened PathExt

  const MpegMime: string := "audio/mpeg"
  const WavMime: string := "audio/wav"

  /** The lookup table, keyed by lower-case extension with its dot. */
  const MimeTypes: map<string, string> := map[
    ".mp3" := MpegMime,
    ".wav" := WavMime,
    ".mpeg" := MpegMime
  ]

  /** `mime_types.get(ext, 'audio/mpeg')`: never fails, and only `.wav`
      leaves the MPEG default. */
  function MimeFor(ext: string): (m: string)
    ensures m == MpegMime || m == WavMime
    ensures m == WavMime <==> ext == ".wav"
  {
    if ext in MimeTypes then MimeTypes[ext] else MpegMime
  }

  /** The MIME label attached to the file at `path`. */
  function MimeTypeOf(path: string): (m: string)
    ensures m == MpegMime || m == WavMime
    ensures m == WavMime <==> Lower(ExtOf(path)) == ".wav"
  {
    MimeFor(Lower(ExtOf(path)))
  }

  /** Classification ignores ASCII case: two paths that lower to the same
      string get the same label. */
  lemma MimeTypeCaseInsensitive(p: string, q: string)
    requires Lower(p) == Lower(q)
    ensures MimeTypeOf(p) == MimeTypeOf(q)
  {
    ExtOfLower(p);
    ExtOfLower(q);
  }

  /** Classification depends on the final path component only. */
  lemma MimeTypeOfBasename(p: string)
    ensures MimeTypeOf(p) == MimeTypeOf(Basename(p))
  {
    ExtOfBasename(p);
  }

  /** A name `stem.x` with a non-dot character in its stem and none of its
      own dots in `x` is classified by `.x` alone: `a.wav.mp3` is MPEG. */
  lemma MimeTypeOfDottedName(stem: string, x: string)
    requires Sep !in stem && !AllDots(stem)
    requires ExtSep !in x && Sep !in x
    ensures MimeTypeOf(stem + [ExtSep] + x) == MimeFor(Lower([ExtSep] + x))
  {
    ExtOfDottedName(stem, x);
  }

  /** A name without a usable dot, `clip`, `.wav` or `..wav`, takes the default. */
  lemma MimeTypeOfUndotted(dots: string, x: string)
    requires AllDots(dots)
    requires ExtSep !in x && Sep !in x
    ensures MimeTypeOf(dots + x) == MpegMime
  {
    if dots == [] {
      assert dots + x == x;
      ExtOfNoDot(x);
    } else {
      ExtOfLeadingDots(dots, x);
    }
  }

  /** The three table entries and two extensions outside it. */
  lemma MimeTableEntries()
    ensures MimeFor(".mp3") == MpegMime && MimeFor(".wav") == WavMime && MimeFor(".mpeg") == MpegMime
    ensures MimeFor("") == MpegMime && MimeFor(".xyz") == MpegMime && MimeFor(".WAV") == MpegMime
  {
  }

  /** `uploads/clip.mp3` is MPEG, by the table's `.mp3` entry. */
  lemma MimeTypeOfMp3()
    ensures ExtOf(Join("uploads", "clip.mp3")) == ".mp3"
    ensures MimeTypeOf(Join("uploads", "clip.mp3")) == MpegMime
  {
    assert "clip" + [ExtSep] + "mp3" == "clip.mp3";
    assert "clip"[0] != ExtSep;
    ExtOfJoinDotted("uploads", "clip", "mp3");
    LowerOfLowerCase(".mp3");
  }

  /** `uploads/CLIP.WAV` is WAV: the extension is lowered before the lookup. */
  lemma MimeTypeOfUpperCaseWav()
    ensures MimeTypeOf(Join("uploads", "CLIP.WAV")) == WavMime
  {
    assert "CLIP" + [ExtSep] + "WAV" == "CLIP.WAV";
    assert [ExtSep] + "WAV" == ".WAV";
    assert "CLIP"[0] != ExtSep;
    assert Lower(".WAV") == ".wav";
    ExtOfJoinDotted("uploads", "CLIP", "WAV");
  }

  /** `uploads/a.wav.mp3` is MPEG: only the last suffix counts. */
  lemma MimeTypeOfDoubleSuffix()
    ensures ExtOf(Join("uploads", "a.wav.mp3")) == ".mp3"
    ensures MimeTypeOf(Join("uploads", "a.wav.mp3")) == MpegMime
  {
    assert "a.wav" + [ExtSep] + "mp3" == "a.wav.mp3";
    assert "a.wav"[0] != ExtSep;
    ExtOfJoinDotted("uploads", "a.wav", "mp3");
    LowerOfLowerCase(".mp3");
  }

  /** `uploads/.wav` has an empty extension and takes the default. */
  lemma MimeTypeOfHiddenWav()
    ensures ExtOf(Join("uploads", ".wav")) == ""
    ensures MimeTypeOf(Join("uploads", ".wav")) == MpegMime
  {
    assert "." + "wav" == ".wav";
    ExtOfLeadingDots(".", "wav");
    ExtOfJoin("uploads", ".wav");
  }

  /** `uploads/clip.xyz` is not rejected: it takes the default. */
  lemma MimeTypeOfUnknown()
    ensures ExtOf(Join("uploads", "clip.xyz")) == ".xyz"
    ensures MimeTypeOf(Join("uploads", "clip.xyz")) == MpegMime
  {
    assert "clip" + [ExtSep] + "xyz" == "clip.xyz";
    assert "clip"[0] != ExtSep;
    ExtOfJoinDotted("uploads", "clip", "xyz");
    LowerOfLowerCase(".xyz");
  }
}
