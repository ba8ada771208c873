/** `get_file_type` (app.py) and the `Path.suffix` it is built on. */
module FileTypes {
  import opened Text

  /** The five categories the server assigns to a file. */
  datatype FileKind = Audio | Video | Image | Pdf | Other

  const AudioExts: seq<string> := [".mp3", ".wav", ".ogg", ".m4a", ".aac", ".flac", ".wma"]
  const VideoExts: seq<string> := [".mp4", ".webm", ".ogg", ".avi", ".mov", ".mkv", ".flv"]
  const ImageExts: seq<string> := [".jpg", ".jpeg", ".png", ".gif", ".bmp", ".webp", ".svg"]
  const PdfExt: string := ".pdf"

  /** str.rfind('.'): the index of the last dot, or -1 when there is none. */
  function LastDot(name: string): (i: int)
    ensures -1 <= i < |name|
    ensures i >= 0 ==> name[i] == '.'
    ensures forall j :: i < j < |name| ==> name[j] != '.'
  {
    if |name| == 0 then -1
    else if name[|name| - 1] == '.' then |name| - 1
    else LastDot(name[..|name| - 1])
  }

  /** `Path(name).suffix` for a single path component: the text from the last
      dot on, provided that dot is neither the first nor the last character. */
  function Suffix(name: string): (ext: string)
    ensures ext == [] || ext[0] == '.'
  {
    var i := LastDot(name);
    if 0 < i < |name| - 1 then name[i..] else ""
  }

  /** A non-empty suffix is a proper tail of the name that starts with its only
      dot; an empty one means no dot stands strictly inside the name after the
      last dot. */
  lemma SuffixShape(name: string)
    ensures var ext := Suffix(name);
            ext != [] ==>
              && 2 <= |ext| < |name|
              && ext == name[|name| - |ext|..]
              && ext[0] == '.'
              && forall j :: 1 <= j < |ext| ==> ext[j] != '.'
    ensures Suffix(name) == [] ==>
              forall j :: 0 < j < |name| - 1 && name[j] == '.' ==>
                exists k :: j < k < |name| && name[k] == '.'
  {
  }

  /** `get_file_type`: the category of the lower-cased suffix; the audio list is
      consulted before the video list, then the image list, then ".pdf". */
  function FileType(filename: string): (k: FileKind)
    ensures k == Audio ==> Lower(Suffix(filename)) in AudioExts
    ensures k == Video ==> Lower(Suffix(filename)) in VideoExts
    ensures k == Image ==> Lower(Suffix(filename)) in ImageExts
    ensures k == Pdf ==> Lower(Suffix(filename)) == PdfExt
    ensures k == Other <==>
              var ext := Lower(Suffix(filename));
              ext !in AudioExts && ext !in VideoExts && ext !in ImageExts && ext != PdfExt
  {
    var ext := Lower(Suffix(filename));
    if ext in AudioExts then Audio
    else if ext in VideoExts then Video
    else if ext in ImageExts then Image
    else if ext == PdfExt then Pdf
    else Other
  }

  /** Lower-casing a name keeps the position of its dots, so it commutes with Suffix. */
  lemma {:induction false} LastDotLower(name: string)
    ensures LastDot(Lower(name)) == LastDot(name)
  {
    if |name| > 0 {
      var init := name[..|name| - 1];
      assert Lower(name)[..|name| - 1] == Lower(init);
      LowerCharFixes(name[|name| - 1]);
      LastDotLower(init);
    }
  }

  lemma SuffixLower(name: string)
    ensures Suffix(Lower(name)) == Lower(Suffix(name))
  {
    LastDotLower(name);
  }

  /** The classification ignores letter case: two names that agree once
      lower-cased get the same category. */
  lemma FileTypeCaseInsensitive(a: string, b: string)
    requires Lower(a) == Lower(b)
    ensures FileType(a) == FileType(b)
  {
    SuffixLower(a);
    SuffixLower(b);
    LowerIdempotent(Suffix(a));
    LowerIdempotent(Suffix(b));
  }

  /** ".ogg" appears in both the audio and the video list; audio wins because
      it is checked first, so no name is ever classified Video for ".ogg". */
  lemma OggIsAudio(filename: string)
    requires Lower(Suffix(filename)) == ".ogg"
    ensures FileType(filename) == Audio
  {
    assert AudioExts[2] == ".ogg";
  }

  /** Video is given exactly to the video extensions that are not also audio ones. */
  lemma VideoExactly(filename: string)
    ensures FileType(filename) == Video <==>
              Lower(Suffix(filename)) in VideoExts && Lower(Suffix(filename)) !in AudioExts
  {
  }

  /** A dot-file such as ".mp3" and a name ending in a dot have no suffix, so they are Other. */
  lemma NoSuffixIsOther(filename: string)
    requires Suffix(filename) == ""
    ensures FileType(filename) == Other
  {
    assert Lower("") == "";
  }
}
