/**
 * The cover-image key of controllers/fileController.js (lines 39-55): the
 * base track name, the language and year tags read from the audio file, the
 * date token, the image's pixel size and an extension taken from the
 * image's MIME type, joined by hyphens. What music-metadata and sharp
 * report is passed in; a field they leave undefined is `None`.
 */
module CoverKeys {
  import opened Wrappers
  import opened Text

  /** One embedded picture: its bytes and its declared MIME type. */
  datatype Picture = Picture(data: seq<Byte>, format: Option<string>)

  /** The tags of `metadata.common` the handler reads. */
  datatype AudioMetadata = AudioMetadata(year: Option<int>, language: Option<string>, pictures: seq<Picture>)

  /** What `sharp(...).metadata()` reports of the cover image. */
  datatype Dimensions = Dimensions(width: Option<nat>, height: Option<nat>)

  const DefaultLanguage: string := "Hindi"
  const DefaultImageType: string := "image/jpg"

  /** `metadata.common.language || "Hindi"`: a missing or empty language
      tag falls back to Hindi. */
  function LanguageSegment(language: Option<string>): (r: string)
    ensures language.None? || language.value == [] ==> r == "Hindi"
    ensures language.Some? && language.value != [] ==> r == language.value
  {
    if language.Some? && language.value != [] then language.value else DefaultLanguage
  }

  /** `${year ? year : null}` after `year = metadata.common.year || null`:
      a missing or zero year prints as `null`, any other year in decimal. */
  function YearSegment(year: Option<int>): (r: string)
    ensures r == "null" <==> year.None? || year.value == 0
    ensures year.Some? && year.value > 0 ==> AllDigits(r) && DigitsValue(r) == year.value
    ensures year.Some? && year.value < 0 ==> |r| >= 2 && r[0] == '-'
  {
    if year.Some? && year.value != 0 then
      var r := IntToString(year.value);
      assert r[0] != 'n';
      r
    else "null"
  }

  /** `picture[0].format || "image/jpg"`; the further alternatives of the
      `||` chain are never reached, because `"image/jpg"` is truthy. */
  function ImageMimeType(format: Option<string>): (r: string)
    ensures r != []
    ensures format.None? || format.value == [] ==> r == "image/jpg"
    ensures format.Some? && format.value != [] ==> r == format.value
  {
    if format.Some? && format.value != [] then format.value else DefaultImageType
  }

  /** `imageMimeType.split("/")[1]`: the text between the first and a second
      `/`, or `undefined` (as a template prints it) when there is no `/`. */
  function ImageExtension(mimeType: string): string {
    var parts := Split(mimeType, '/');
    if |parts| >= 2 then parts[1] else "undefined"
  }

  /** A type without `/` has no extension to give. */
  lemma ImageExtensionWithoutSlash(mimeType: string)
    requires '/' !in mimeType
    ensures ImageExtension(mimeType) == "undefined"
  {
    SplitWithoutSeparator(mimeType, '/');
  }

  /** The extension is the text after the first `/`, up to any second one. */
  lemma ImageExtensionOf(kind: string, sub: string, rest: string)
    requires '/' !in kind && '/' !in sub
    ensures ImageExtension(kind + "/" + sub) == sub
    ensures ImageExtension(kind + "/" + sub + "/" + rest) == sub
  {
    SplitWithoutSeparator(kind, '/');
    SplitWithoutSeparator(sub, '/');
    SplitAtSeparator(kind, '/', sub);
    SplitAtSeparator(kind + "/" + sub, '/', rest);
  }

  /** The fallback type gives the extension `jpg`. */
  lemma DefaultExtension()
    ensures ImageExtension(ImageMimeType(None)) == "jpg"
  {
    assert "image/jpg" == "image" + "/" + "jpg";
    ImageExtensionOf("image", "jpg", []);
  }

  /** `${width}x${height}`; an undefined size prints as `undefined`. */
  function SizeText(n: Option<nat>): (r: string)
    ensures n.Some? ==> AllDigits(r) && DigitsValue(r) == n.value
    ensures n.None? ==> r == "undefined"
  {
    if n.Some? then DigitsValueOfNatToString(n.value); NatToString(n.value) else "undefined"
  }

  function DimensionsText(d: Dimensions): string {
    SizeText(d.width) + "x" + SizeText(d.height)
  }

  /** The cover key (lines 54-55): five hyphen-separated fields, the last
      holding the size and the extension. */
  function CoverKey(baseName: string, meta: AudioMetadata, token: string, size: Dimensions, ext: string): (key: string)
  {
    baseName + "-" + LanguageSegment(meta.language) + "-" + YearSegment(meta.year) + "-"
      + token + "-" + DimensionsText(size) + "." + ext
  }

  /** The fields of a cover key, in order. */
  function CoverKeyFields(baseName: string, meta: AudioMetadata, token: string, size: Dimensions, ext: string): seq<string> {
    [baseName, LanguageSegment(meta.language), YearSegment(meta.year), token, DimensionsText(size) + "." + ext]
  }

  lemma JoinFive(a: string, b: string, c: string, d: string, e: string, sep: char)
    ensures Join([a, b, c, d, e], sep) == a + [sep] + b + [sep] + c + [sep] + d + [sep] + e
  {
    var ps := [a, b, c, d, e];
    assert ps[..4] == [a, b, c, d];
    assert [a, b, c, d][..3] == [a, b, c];
    assert [a, b, c][..2] == [a, b];
    assert [a, b][..1] == [a];
    assert Join([a], sep) == a;
    assert Join([a, b], sep) == a + [sep] + b;
    assert Join([a, b, c], sep) == a + [sep] + b + [sep] + c;
    assert Join([a, b, c, d], sep) == a + [sep] + b + [sep] + c + [sep] + d;
  }

  /** The key is its fields joined by hyphens. */
  lemma CoverKeyIsJoin(baseName: string, meta: AudioMetadata, token: string, size: Dimensions, ext: string)
    ensures CoverKey(baseName, meta, token, size, ext) == Join(CoverKeyFields(baseName, meta, token, size, ext), '-')
  {
    var fields := CoverKeyFields(baseName, meta, token, size, ext);
    var last := DimensionsText(size) + "." + ext;
    JoinFive(fields[0], fields[1], fields[2], fields[3], last, '-');
    var front := baseName + "-" + LanguageSegment(meta.language) + "-" + YearSegment(meta.year) + "-" + token + "-";
    ConcatAssoc(front, DimensionsText(size) + ".", ext);
    ConcatAssoc(front, DimensionsText(size), ".");
  }

  /** When no field holds a hyphen of its own, splitting the key at hyphens
      gives the fields back, in order. */
  lemma CoverKeyFieldsRecovered(baseName: string, meta: AudioMetadata, token: string, size: Dimensions, ext: string)
    requires var fields := CoverKeyFields(baseName, meta, token, size, ext);
      forall i :: 0 <= i < |fields| ==> '-' !in fields[i]
    ensures Split(CoverKey(baseName, meta, token, size, ext), '-') == CoverKeyFields(baseName, meta, token, size, ext)
  {
    CoverKeyIsJoin(baseName, meta, token, size, ext);
    SplitJoin(CoverKeyFields(baseName, meta, token, size, ext), '-');
  }

  /** The key ends with a dot and the extension: an extension without a dot
      is what follows the key's last dot. */
  lemma CoverKeyExtension(baseName: string, meta: AudioMetadata, token: string, size: Dimensions, ext: string)
    requires '.' !in ext
    ensures LastPiece(CoverKey(baseName, meta, token, size, ext), '.') == ext
  {
    var prefix := baseName + "-" + LanguageSegment(meta.language) + "-" + YearSegment(meta.year) + "-"
      + token + "-" + DimensionsText(size);
    LastPieceAfter(prefix, '.', ext);
  }
}
