/**
 * The three links stored with each file record (controllers/fileController.js
 * lines 82-88) and the way the delete handler reads a cover key back out of
 * its link (line 180). `BASE_URL` is a parameter; when the environment does
 * not set it, the template prints `undefined`, which is just another value
 * of that parameter.
 */
module Urls {
  import opened Wrappers
  import opened Text
  import opened UriComponent

  const ViewPath: string := "/api/files/view/"
  const DownloadPath: string := "/api/files/download/"
  const CoverPath: string := "/api/files/viewCoverImage/"

  /** `${BASE_URL}${path}${encodeURIComponent(key)}`. */
  function ResourceUrl(baseUrl: string, path: string, key: string): string {
    baseUrl + path + Encode(key)
  }

  function ViewUrl(baseUrl: string, key: string): string {
    ResourceUrl(baseUrl, ViewPath, key)
  }

  function DownloadUrl(baseUrl: string, key: string): string {
    ResourceUrl(baseUrl, DownloadPath, key)
  }

  /** `coverImageKey ? … : null`: a link only for a key that is set and
      not empty. */
  function CoverImageUrl(baseUrl: string, coverKey: Option<string>): (url: Option<string>)
    ensures url.Some? <==> coverKey.Some? && coverKey.value != []
  {
    if coverKey.Some? && coverKey.value != [] then Some(ResourceUrl(baseUrl, CoverPath, coverKey.value))
    else None
  }

  /** `url.split("/").pop()`: what the delete handler takes for the cover
      key. */
  function KeyFromUrl(url: string): (key: string)
    ensures '/' !in key
  {
    LastPiece(url, '/')
  }

  /** The last segment of a link is the encoded key, because the encoding
      escapes every `/`; one `decodeURIComponent` of it gives the key back.
      This holds for any base URL, whatever it contains. */
  lemma LastSegmentOfResourceUrl(baseUrl: string, path: string, key: string)
    requires path != [] && path[|path| - 1] == '/'
    ensures KeyFromUrl(ResourceUrl(baseUrl, path, key)) == Encode(key)
    ensures Decode(KeyFromUrl(ResourceUrl(baseUrl, path, key))) == Some(key)
  {
    var dir := path[..|path| - 1];
    assert path == dir + "/";
    ConcatAssoc(baseUrl, dir, "/");
    EncodeChars(key);
    LastPieceAfter(baseUrl + dir, '/', Encode(key));
    DecodeEncode(key);
  }

  /** All three links end in the encoded key. */
  lemma LinksEndInEncodedKey(baseUrl: string, key: string)
    ensures KeyFromUrl(ViewUrl(baseUrl, key)) == Encode(key)
    ensures KeyFromUrl(DownloadUrl(baseUrl, key)) == Encode(key)
    ensures key != [] ==> KeyFromUrl(CoverImageUrl(baseUrl, Some(key)).value) == Encode(key)
  {
    LastSegmentOfResourceUrl(baseUrl, ViewPath, key);
    LastSegmentOfResourceUrl(baseUrl, DownloadPath, key);
    LastSegmentOfResourceUrl(baseUrl, CoverPath, key);
  }

  /** The key the delete handler reads from a cover link is the uploaded
      cover key exactly when no character of that key is escaped. */
  lemma RecoveredCoverKey(baseUrl: string, coverKey: string)
    requires coverKey != []
    ensures var url := CoverImageUrl(baseUrl, Some(coverKey)).value;
      KeyFromUrl(url) == coverKey <==> forall i :: 0 <= i < |coverKey| ==> IsUnreserved(coverKey[i])
  {
    LastSegmentOfResourceUrl(baseUrl, CoverPath, coverKey);
    EncodeIsIdentity(coverKey);
  }
}
