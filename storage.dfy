/** Services/SupabaseStorageService.cs: the object path taken from a public image URL and the
    storage endpoint the delete request is sent to. */
module SupabaseStorageService {
  import opened Wrappers
  import opened DotNetText

  const PublicMarker: string := "/public/"
  const ObjectEndpoint: string := "/storage/v1/object/"

  /** `uri.AbsolutePath[(index + 8)..]` for the first `/public/`, or `None` when there is none. */
  function ExtractFilePath(absolutePath: string): (p: Option<string>)
    ensures p.None? <==> forall k :: !MatchAt(absolutePath, PublicMarker, k)
    ensures p.Some? ==> exists k :: (MatchAt(absolutePath, PublicMarker, k) &&
      (forall j :: 0 <= j < k ==> !MatchAt(absolutePath, PublicMarker, j)) &&
      p.value == absolutePath[k + |PublicMarker|..])
  {
    var index := IndexOf(absolutePath, PublicMarker);
    if index == -1 then None else Some(absolutePath[index + |PublicMarker|..])
  }

  /** The path is recovered from a URL built around the first `/public/`. */
  lemma ExtractAfterFirstMarker(prefix: string, rest: string)
    requires forall k :: 0 <= k < |prefix| ==> !MatchAt(prefix + PublicMarker + rest, PublicMarker, k)
    ensures ExtractFilePath(prefix + PublicMarker + rest) == Some(rest)
  {
    var s := prefix + PublicMarker + rest;
    assert s[|prefix|..|prefix| + |PublicMarker|] == PublicMarker;
    assert MatchAt(s, PublicMarker, |prefix|);
    assert s[|prefix| + |PublicMarker|..] == rest;
  }

  /** `$"{_supabaseUrl}/storage/v1/object/{filePath}"`. */
  function DeleteUrl(supabaseUrl: string, filePath: string): (url: string)
    ensures |url| == |supabaseUrl| + |ObjectEndpoint| + |filePath|
    ensures url[..|supabaseUrl|] == supabaseUrl
    ensures url[|supabaseUrl|..|supabaseUrl| + |ObjectEndpoint|] == ObjectEndpoint
    ensures url[|supabaseUrl| + |ObjectEndpoint|..] == filePath
  {
    supabaseUrl + ObjectEndpoint + filePath
  }

  /** One base URL never sends two paths to the same endpoint. */
  lemma DeleteUrlInjective(supabaseUrl: string, p1: string, p2: string)
    requires DeleteUrl(supabaseUrl, p1) == DeleteUrl(supabaseUrl, p2)
    ensures p1 == p2
  {
    var n := |supabaseUrl| + |ObjectEndpoint|;
    assert p1 == DeleteUrl(supabaseUrl, p1)[n..];
  }

  /** What `DeleteImageByUrl` does before the network: no request, or a DELETE to `url`. */
  datatype DeleteRequest = NoRequest | Delete(url: string)

  /** `DeleteImageByUrl(imageUrl)`; `absolutePath` is the `AbsolutePath` of `new Uri(imageUrl)`.
      The response is not inspected, so the method's outcome does not depend on it. */
  function DeleteImageByUrl(imageUrl: Option<string>, absolutePath: string, supabaseUrl: string): (req: DeleteRequest)
    ensures IsNullOrWhiteSpace(imageUrl) ==> req == NoRequest
    ensures !IsNullOrWhiteSpace(imageUrl) ==>
      (req.Delete? <==> ExtractFilePath(absolutePath).Some?) &&
      (req.Delete? ==> req.url == DeleteUrl(supabaseUrl, ExtractFilePath(absolutePath).value))
  {
    if IsNullOrWhiteSpace(imageUrl) then NoRequest
    else
      var index := IndexOf(absolutePath, PublicMarker);
      if index == -1 then NoRequest
      else
        var filePath := absolutePath[index + 8..];
        Delete(supabaseUrl + "/storage/v1/object/" + filePath)
  }

  /** An image stored under the bucket's public prefix is deleted by its own path. */
  lemma DeletesStoredImage(imageUrl: string, prefix: string, objectPath: string, supabaseUrl: string)
    requires !IsNullOrWhiteSpace(Some(imageUrl))
    requires forall k :: 0 <= k < |prefix| ==> !MatchAt(prefix + PublicMarker + objectPath, PublicMarker, k)
    ensures DeleteImageByUrl(Some(imageUrl), prefix + PublicMarker + objectPath, supabaseUrl) ==
      Delete(supabaseUrl + ObjectEndpoint + objectPath)
  {
    ExtractAfterFirstMarker(prefix, objectPath);
  }
}
