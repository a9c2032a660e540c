/**
  Media classification of src/lib/types.ts: a file is an image, a video, an
  audio file or something else, judged first by its MIME type and, when that
  says nothing, by the extension of its name. Both lookups ignore case.
*/
module MediaTypes {
  import opened Text

  datatype MediaType = Image | Video | Audio | Other

  const ImageExtensions: set<string> :=
    {".jpg", ".jpeg", ".png", ".gif", ".webp", ".svg", ".ico", ".bmp", ".avif", ".tiff"}

  const VideoExtensions: set<string> :=
    {".mp4", ".webm", ".mov", ".avi", ".mkv", ".flv", ".wmv", ".m4v", ".ogv"}

  const AudioExtensions: set<string> :=
    {".mp3", ".wav", ".ogg", ".flac", ".aac", ".m4a", ".wma", ".opus", ".webm"}

  const ImageMimes: set<string> :=
    {"image/jpeg", "image/png", "image/gif", "image/webp", "image/svg+xml",
     "image/x-icon", "image/bmp", "image/avif", "image/tiff"}

  const VideoMimes: set<string> :=
    {"video/mp4", "video/webm", "video/quicktime", "video/x-msvideo", "video/x-matroska",
     "video/x-flv", "video/x-ms-wmv", "video/ogg"}

  const AudioMimes: set<string> :=
    {"audio/mpeg", "audio/wav", "audio/ogg", "audio/flac", "audio/aac", "audio/mp4",
     "audio/x-ms-wma", "audio/opus", "audio/webm"}

  /** The category a MIME type names by its top-level type alone. */
  function TopLevelCategory(mime: string): MediaType {
    if StartsWith(mime, "image/") then Image
    else if StartsWith(mime, "video/") then Video
    else if StartsWith(mime, "audio/") then Audio
    else Other
  }

  /** `getMediaTypeFromMime`: the exact lists are checked before the prefixes,
      but every listed type has its category's prefix, so the result is the
      category of the lower-cased top-level type. */
  function FromMime(mime: string): (r: MediaType)
    ensures r == TopLevelCategory(Lower(mime))
  {
    var lower := Lower(mime);
    ListedMimesHaveTopLevel();
    if lower in ImageMimes then Image
    else if lower in VideoMimes then Video
    else if lower in AudioMimes then Audio
    else if StartsWith(lower, "image/") then Image
    else if StartsWith(lower, "video/") then Video
    else if StartsWith(lower, "audio/") then Audio
    else Other
  }

  /** The category an extension (already lower-cased, dot included) is listed
      under; video is consulted before audio, so `.webm` is a video. */
  function ExtensionCategory(ext: string): MediaType {
    if ext in ImageExtensions then Image
    else if ext in VideoExtensions then Video
    else if ext in AudioExtensions then Audio
    else Other
  }

  /** `getMediaTypeFromExtension`: a name without a dot is `other`; otherwise
      the lower-cased suffix from the last dot is looked up. */
  function FromExtension(filename: string): (r: MediaType)
    ensures '.' !in filename ==> r == Other
    ensures '.' in filename ==>
              r == ExtensionCategory(Lower(filename[LastIndexOf(filename, '.')..]))
  {
    var dotIndex := LastIndexOf(filename, '.');
    if dotIndex == -1 then Other
    else
      ExtensionCategory(Lower(filename[dotIndex..]))
  }

  /** `getMediaType`: a MIME type that is given and classifies wins; otherwise
      the file name's extension decides. */
  function GetMediaType(filename: string, mime: Option<string>): (r: MediaType)
    ensures Truthy(mime) && FromMime(mime.value) != Other ==> r == FromMime(mime.value)
    ensures !(Truthy(mime) && FromMime(mime.value) != Other) ==> r == FromExtension(filename)
  {
    if Truthy(mime) && FromMime(mime.value) != Other then FromMime(mime.value)
    else FromExtension(filename)
  }

  // ---------------------------------------------------------------------------
  // Properties

  /** Every MIME type on the exact lists carries its own category's prefix. */
  lemma ListedMimesHaveTopLevel()
    ensures forall m :: m in ImageMimes ==> TopLevelCategory(m) == Image
    ensures forall m :: m in VideoMimes ==> TopLevelCategory(m) == Video
    ensures forall m :: m in AudioMimes ==> TopLevelCategory(m) == Audio
  {
    ListedImageMimes();
    ListedVideoMimes();
    ListedAudioMimes();
  }

  lemma ListedImageMimes()
    ensures forall m :: m in ImageMimes ==> TopLevelCategory(m) == Image
  {
    forall m | m in ImageMimes ensures TopLevelCategory(m) == Image {
      assert m[..6] == "image/";
    }
  }

  lemma ListedVideoMimes()
    ensures forall m :: m in VideoMimes ==> TopLevelCategory(m) == Video
  {
    forall m | m in VideoMimes ensures TopLevelCategory(m) == Video {
      assert m[..6] == "video/";
    }
  }

  lemma ListedAudioMimes()
    ensures forall m :: m in AudioMimes ==> TopLevelCategory(m) == Audio
  {
    forall m | m in AudioMimes ensures TopLevelCategory(m) == Audio {
      assert m[..6] == "audio/";
    }
  }

  /** Case does not matter to the MIME lookup. */
  lemma FromMimeIgnoresCase(mime: string)
    ensures FromMime(mime) == FromMime(Lower(mime))
  {
    LowerIsLower(mime);
    LowerOfLower(Lower(mime));
  }

  /** The test on whether a MIME type was given is redundant: an absent or
      empty MIME type classifies as `other` anyway. So the result is the MIME
      type's top-level category when that is a media category, else the
      extension's. */
  lemma GetMediaTypeByTopLevel(filename: string, mime: Option<string>)
    ensures GetMediaType(filename, mime) ==
              var fromMime := TopLevelCategory(Lower(mime.GetOr("")));
              if fromMime != Other then fromMime else FromExtension(filename)
  {
  }

  /** A lower-case prefix is still there after lower-casing. */
  lemma PrefixSurvives(mime: string, prefix: string)
    requires IsLower(prefix) && StartsWith(mime, prefix)
    ensures StartsWith(Lower(mime), prefix)
  {
    LowerOfPrefix(mime, prefix);
    LowerOfLower(prefix);
  }

  /** A top-level type that is already lower case keeps its category when the
      whole MIME type is lower-cased, and a lower-case MIME type is unchanged. */
  lemma KeepsTopLevel(mime: string)
    ensures TopLevelCategory(mime) != Other ==> TopLevelCategory(Lower(mime)) == TopLevelCategory(mime)
    ensures IsLower(mime) ==> Lower(mime) == mime
  {
    if IsLower(mime) {
      LowerOfLower(mime);
    }
    if StartsWith(mime, "image/") {
      ImagePrefixSurvives(mime);
    } else if StartsWith(mime, "video/") {
      VideoPrefixSurvives(mime);
    } else if StartsWith(mime, "audio/") {
      AudioPrefixSurvives(mime);
    }
  }

  lemma ImagePrefixSurvives(mime: string)
    requires StartsWith(mime, "image/")
    ensures TopLevelCategory(Lower(mime)) == Image
  {
    PrefixSurvives(mime, "image/");
  }

  lemma VideoPrefixSurvives(mime: string)
    requires StartsWith(mime, "video/")
    ensures TopLevelCategory(Lower(mime)) == Video
  {
    var lower := Lower(mime);
    PrefixSurvives(mime, "video/");
    assert lower[0] == 'v';
  }

  lemma AudioPrefixSurvives(mime: string)
    requires StartsWith(mime, "audio/")
    ensures TopLevelCategory(Lower(mime)) == Audio
  {
    var lower := Lower(mime);
    PrefixSurvives(mime, "audio/");
    assert lower[0] == 'a';
  }

  /** An upper-case extension still counts. */
  lemma UpperCaseExtensionExample(name: string, mime: string)
    requires name == "clip.MP4" && mime == ""
    ensures GetMediaType(name, Some(mime)) == Video
  {
    Mp4IsVideo(name);
  }

  lemma Mp4IsVideo(name: string)
    requires name == "clip.MP4"
    ensures FromExtension(name) == Video
  {
    assert name[5..] == "MP4";
    LastIndexAt(name, '.', 4);
    Mp4Category(name[4..]);
  }

  lemma Mp4Category(ext: string)
    requires ext == ".MP4"
    ensures ExtensionCategory(Lower(ext)) == Video
  {
    assert Lower(ext) == ".mp4";
  }

  /** A MIME type beats the extension, so
      `unknown.xyz` with `audio/mpeg` is audio, as is any other name. */
  lemma MimeBeatsExtensionExample(name: string, mime: string)
    requires mime == "audio/mpeg"
    ensures GetMediaType(name, Some(mime)) == Audio
  {
    MpegIsAudio(mime);
  }

  lemma MpegIsAudio(mime: string)
    requires mime == "audio/mpeg"
    ensures FromMime(mime) == Audio
  {
    assert mime[..6] == "audio/";
    PrefixSurvives(mime, "audio/");
    AudioPrefixIsAudio(mime);
  }

  /** Any MIME type of top-level type `audio`, in any case (`AUDIO/MPEG`,
      `Audio/ogg`), is audio. */
  lemma AudioPrefixIsAudio(mime: string)
    requires StartsWith(Lower(mime), "audio/")
    ensures FromMime(mime) == Audio
  {
    AudioTopLevel(Lower(mime));
  }

  lemma AudioTopLevel(lower: string)
    requires StartsWith(lower, "audio/")
    ensures TopLevelCategory(lower) == Audio
  {
    assert lower[..6][0] == 'a';
  }

  /** No dot and no MIME type gives `other`. */
  lemma NoExtensionExample(name: string, mime: string)
    requires name == "noext" && mime == ""
    ensures GetMediaType(name, Some(mime)) == Other
  {
    assert '.' !in name;
  }

  /** `.webm` is on both the video and the audio list; video is checked first. */
  lemma WebmIsVideo(name: string)
    requires EndsWith(name, ".WEBM") || EndsWith(name, ".webm")
    ensures FromExtension(name) == Video
  {
    var n := |name|;
    var ext := name[n - 5..];
    assert ext == ".WEBM" || ext == ".webm";
    assert name[n - 5] == '.';
    assert '.' !in name[n - 4..] by {
      assert name[n - 4..] == ext[1..];
    }
    assert LastIndexOf(name, '.') == n - 5;
    WebmCategory(ext);
  }

  lemma WebmCategory(ext: string)
    requires ext == ".WEBM" || ext == ".webm"
    ensures ExtensionCategory(Lower(ext)) == Video
  {
    assert Lower(ext) == ".webm";
  }
}
