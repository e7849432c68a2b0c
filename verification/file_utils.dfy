/**
  The two file-name helpers of the converter:
  `DetectFileFormat` guesses a format identifier from a file name, and
  `GetOutputFileName` replaces the last extension of a name by a new format.
  The size formatter that lives beside them is not part of this model.
 */
module FileUtils {
  import opened JsStrings

  /** The recognised extensions. */
  const Extensions: set<string> := {"epub", "mobi", "pdf", "txt", "fb2"}

  /** The lookup table from a recognised extension to the format identifier it
      stands for: each of the five extensions stands for itself. */
  const FormatMap: map<string, string> := map e | e in Extensions :: e

  /** The extension detection looks up: the name is lower-cased, cut into pieces
      at every '.', and the last piece is kept.  That is the lower-cased text
      after the last '.', or the whole lower-cased name when it has no '.'. */
  function LowerExtension(name: string): string {
    Pop(Split(ToLowerCase(name), '.'))
  }

  /** Each recognised extension is a lower-case word without '.', and stands for itself. */
  lemma FormatKeysShape()
    ensures forall k :: k in FormatMap ==> FormatMap[k] == k
    ensures forall k :: k in FormatMap ==> '.' !in k && IsLowerCase(k)
  {
  }

  /** The format a file name is taken to be in, or "" when its extension is not recognised. */
  function DetectFileFormat(name: string): (format: string)
    ensures format == "" || format in Extensions
    ensures format != "" ==> format in FormatMap && FormatMap[format] == format
  {
    var extension := LowerExtension(name);
    if extension in FormatMap then FormatMap[extension] else ""
  }

  /** Reference reading of detection, through `lastIndexOf` rather than `split`:
      the lower-cased text after the last '.' (all of the name if there is no
      '.') if it is a recognised extension, and "" otherwise. */
  lemma DetectByLastDot(name: string)
    ensures var e := ToLowerCase(name)[LastIndexOf(name, '.') + 1..];
            DetectFileFormat(name) == (if e in FormatMap then e else "")
  {
    FormatKeysShape();
    LastDotOfLowerCase(name);
    PopSplitAfterLastIndex(ToLowerCase(name), '.');
  }

  /** A name with a '.' is judged by the lower-cased text after its last '.' only. */
  lemma DetectDotted(p: string, q: string)
    requires '.' !in q
    ensures DetectFileFormat(p + "." + q) ==
            (if ToLowerCase(q) in FormatMap then ToLowerCase(q) else "")
  {
    FormatKeysShape();
    var lp, lq := ToLowerCase(p), ToLowerCase(q);
    assert ToLowerCase(p + "." + q) == lp + "." + lq by {
      LowerCaseAppend(p + ".", q);
      LowerCaseAppend(p, ".");
      assert ToLowerCase(".") == ".";
    }
    LowerCaseKeepsDotFree(q);
    SplitAppendPiece(lp, '.', lq);
    assert LowerExtension(p + "." + q) == lq;
  }

  /** A name without '.' is matched as a whole. */
  lemma DetectDotless(name: string)
    requires '.' !in name
    ensures DetectFileFormat(name) ==
            (if ToLowerCase(name) in FormatMap then ToLowerCase(name) else "")
  {
    FormatKeysShape();
    LowerCaseKeepsDotFree(name);
  }

  /** A name ending in '.' is never recognised. */
  lemma DetectTrailingDot(p: string)
    ensures DetectFileFormat(p + ".") == ""
  {
    DetectDotted(p, "");
    assert p + "." + "" == p + ".";
  }

  /** Detection ignores the case of ASCII letters. */
  lemma DetectCaseInsensitive(name: string)
    ensures DetectFileFormat(ToUpperCase(name)) == DetectFileFormat(name)
    ensures DetectFileFormat(ToLowerCase(name)) == DetectFileFormat(name)
  {
    FormatKeysShape();
    LowerCaseFacts(name);
    LowerOfUpperCase(name);
  }

  /** Every recognised extension, in lower case or ASCII upper case and after
      any prefix, is detected as itself. */
  lemma DetectRecognisesFormat(p: string, id: string)
    requires id in FormatMap
    ensures DetectFileFormat(p + "." + id) == id
    ensures DetectFileFormat(p + "." + ToUpperCase(id)) == id
  {
    FormatKeysShape();
    LowerCaseFacts(id);
    DetectDotted(p, id);
    LowerOfUpperCase(id);
    assert '.' !in ToUpperCase(id);
    DetectDotted(p, ToUpperCase(id));
  }


  /** The name under which a converted file is offered: the stem of the
      original name, then '.', then the new format.  The stem is the part of
      the name before its last '.', or "" when the name has no '.' (the
      position of a missing '.' is -1, and a substring ending there is empty). */
  function GetOutputFileName(originalName: string, newFormat: string): (r: string)
    ensures |r| > |newFormat| && r[|r| - |newFormat| - 1..] == "." + newFormat
    ensures var k := |r| - |newFormat| - 1;
            k <= |originalName| && r[..k] == originalName[..k]
    ensures var k := |r| - |newFormat| - 1;
            '.' in originalName ==> k < |originalName| && originalName[k] == '.' && '.' !in originalName[k + 1..]
    ensures '.' !in originalName ==> r == "." + newFormat
  {
    var nameWithoutExt := Substring(originalName, 0, LastIndexOf(originalName, '.'));
    nameWithoutExt + "." + newFormat
  }

  /** Only the final extension is replaced. */
  lemma OutputNameReplacesLastExtension(p: string, q: string, newFormat: string)
    requires '.' !in q
    ensures GetOutputFileName(p + "." + q, newFormat) == p + "." + newFormat
  {
    LastIndexOfSplit(p, '.', q);
    assert (p + "." + q)[..|p|] == p;
  }

  /** Renaming twice to the same dot-free format is the same as renaming once. */
  lemma OutputNameIdempotent(name: string, newFormat: string)
    requires '.' !in newFormat
    ensures GetOutputFileName(GetOutputFileName(name, newFormat), newFormat) ==
            GetOutputFileName(name, newFormat)
  {
    var r := GetOutputFileName(name, newFormat);
    var k := |r| - |newFormat| - 1;
    assert r == r[..k] + "." + newFormat;
    OutputNameReplacesLastExtension(r[..k], newFormat, newFormat);
  }

  /** A file renamed to a recognised format is detected as that format. */
  lemma DetectOutputName(name: string, id: string)
    requires id in FormatMap
    ensures DetectFileFormat(GetOutputFileName(name, id)) == id
  {
    var r := GetOutputFileName(name, id);
    var k := |r| - |id| - 1;
    assert r == r[..k] + "." + id;
    DetectRecognisesFormat(r[..k], id);
  }


  // Sample names, one lemma each.

  lemma DetectExampleUpperCaseExtension()
    ensures DetectFileFormat("story.TXT") == "txt"
  {
    assert "story.TXT" == "story" + "." + "TXT";
    assert ToLowerCase("TXT") == "txt";
    DetectDotted("story", "TXT");
  }

  lemma DetectExampleDoubleExtension()
    ensures DetectFileFormat("a.tar.epub") == "epub"
  {
    assert "a.tar.epub" == "a.tar" + "." + "epub";
    assert ToLowerCase("epub") == "epub";
    DetectDotted("a.tar", "epub");
  }

  lemma DetectExampleUnknownExtension()
    ensures DetectFileFormat("name.xyz") == ""
  {
    assert "name.xyz" == "name" + "." + "xyz";
    assert ToLowerCase("xyz") == "xyz";
    DetectDotted("name", "xyz");
  }

  lemma DetectExampleDotlessName()
    ensures DetectFileFormat("EPUB") == "epub"
  {
    assert ToLowerCase("EPUB") == "epub";
    DetectDotless("EPUB");
  }

  lemma OutputNameExampleSimple()
    ensures GetOutputFileName("book.epub", "fb2") == "book.fb2"
  {
    assert "book.epub" == "book" + "." + "epub";
    OutputNameReplacesLastExtension("book", "epub", "fb2");
  }

  lemma OutputNameExampleDoubleExtension()
    ensures GetOutputFileName("archive.tar.epub", "txt") == "archive.tar.txt"
  {
    assert "archive.tar.epub" == "archive.tar" + "." + "epub";
    OutputNameReplacesLastExtension("archive.tar", "epub", "txt");
  }
}
