/**
  The listing endpoint of src/app/api/files/route.ts: after the session check
  it lists the bucket and enriches every listed object, twenty at a time, with
  its content type (from a HEAD request), its media type and its display name.
*/
module FilesRoute {
  import opened Text
  import Auth
  import MediaTypes
  import R2

  /** The number of HEAD requests issued together. */
  const BatchSize: nat := 20

  /** One entry of the response. */
  datatype EnrichedFile = EnrichedFile(
    key: string,
    name: string,
    size: nat,
    contentType: string,
    mediaType: MediaTypes.MediaType,
    lastModified: Option<int>,
    url: string,
    embedUrl: string)

  datatype FilesResponse =
    | Unauthorized                                          // 401
    | ListFailed                                            // 500
    | Listing(files: seq<EnrichedFile>, count: int)         // 200

  /** The HTTP status of a response. */
  function Status(r: FilesResponse): int {
    match r
    case Unauthorized => 401
    case ListFailed => 500
    case Listing(_, _) => 200
  }

  /** The display name: the last `/`-separated segment of the key, the whole
      key when it has no `/`. */
  function FileName(key: string): (name: string)
    ensures '/' !in name
    ensures EndsWith(key, name)
    ensures '/' !in key ==> name == key
    ensures '/' in key ==> key[|key| - |name| - 1] == '/'
  {
    var slash := LastIndexOf(key, '/');
    if slash == -1 then key
    else
      assert key[|key| - |key[slash + 1..]|..] == key[slash + 1..];
      key[slash + 1..]
  }

  /** The content type the handler reports: the HEAD response's, or
      `application/octet-stream` when the HEAD failed or named none. */
  function ReportedContentType(head: R2.HeadResponse): (contentType: string)
    ensures head.HeadOk? && head.contentType.Some? ==> contentType == head.contentType.value
    ensures !(head.HeadOk? && head.contentType.Some?) ==> contentType == R2.DefaultContentType
  {
    var metadata := R2.GetFileMetadata(head);
    if metadata.Some? then metadata.value.contentType else R2.DefaultContentType
  }

  /** The enrichment callback for one listed file, given the outcome of its
      HEAD request. The key, size, date and links are copied from the
      listing, the name is the key's last segment, and the media type is
      decided from the reported content type and the key. */
  function Enrich(file: R2.FileListItem, head: R2.HeadResponse): (e: EnrichedFile)
    ensures && e.key == file.key && e.size == file.size && e.lastModified == file.lastModified
            && e.url == file.url && e.embedUrl == file.embedUrl
    ensures e.name == FileName(file.key) && '/' !in e.name && EndsWith(file.key, e.name)
    ensures e.contentType == ReportedContentType(head)
    ensures e.mediaType == MediaTypes.GetMediaType(file.key, Some(e.contentType))
  {
    var contentType := ReportedContentType(head);
    EnrichedFile(file.key, FileName(file.key), file.size, contentType,
                 MediaTypes.GetMediaType(file.key, Some(contentType)),
                 file.lastModified, file.url, file.embedUrl)
  }

  /** `xs.map(f)`, written from the end so that a loop can extend it. */
  function Mapped<A, B>(xs: seq<A>, f: A -> B): (ys: seq<B>)
    ensures |ys| == |xs|
    ensures forall k :: 0 <= k < |xs| ==> ys[k] == f(xs[k])
  {
    if xs == [] then [] else Mapped(xs[..|xs| - 1], f) + [f(xs[|xs| - 1])]
  }

  lemma MappedAppend<A, B>(a: seq<A>, b: seq<A>, f: A -> B)
    ensures Mapped(a + b, f) == Mapped(a, f) + Mapped(b, f)
  {
  }

  /** The enrichment callback with the HEAD request on each key. */
  function EnrichWith(head: string -> R2.HeadResponse): R2.FileListItem -> EnrichedFile {
    (file: R2.FileListItem) => Enrich(file, head(file.key))
  }

  /** What the handler returns for a listing: entry `k` is the enrichment of
      listed file `k`; nothing is dropped and nothing reordered. */
  function EnrichAll(files: seq<R2.FileListItem>, head: string -> R2.HeadResponse): seq<EnrichedFile> {
    Mapped(files, EnrichWith(head))
  }

  /** The batched enrichment loop. `head` stands for the HEAD request on a key.
      Because `getFileMetadata` turns every failure into `null`, no callback
      rejects, so every listed file comes back enriched, in listing order. */
  method EnrichListing(files: seq<R2.FileListItem>, head: string -> R2.HeadResponse)
    returns (enriched: seq<EnrichedFile>)
    ensures enriched == EnrichAll(files, head)
  {
    enriched := [];
    var i := 0;
    while i < |files|
      invariant enriched == EnrichAll(files[..if i <= |files| then i else |files|], head)
      decreases |files| - i
    {
      var end := if i + BatchSize < |files| then i + BatchSize else |files|;
      var batch := files[i..end];
      var results := EnrichBatch(batch, head);
      MappedAppend(files[..i], batch, EnrichWith(head));
      SliceJoin(files, i, end);
      enriched := enriched + results;
      i := i + BatchSize;
    }
    SliceJoin(files, 0, 0);
  }

  /** One batch: the `Promise.allSettled` over the batch's callbacks, every
      one of which is fulfilled. */
  method EnrichBatch(batch: seq<R2.FileListItem>, head: string -> R2.HeadResponse)
    returns (results: seq<EnrichedFile>)
    ensures results == EnrichAll(batch, head)
  {
    results := [];
    var j := 0;
    while j < |batch|
      invariant 0 <= j <= |batch|
      invariant results == EnrichAll(batch[..j], head)
    {
      assert batch[..j + 1][..j] == batch[..j];
      results := results + [Enrich(batch[j], head(batch[j].key))];
      j := j + 1;
    }
    assert batch[..j] == batch;
  }

  lemma SliceJoin<T>(s: seq<T>, i: nat, end: nat)
    requires i <= end <= |s|
    ensures s[..i] + s[i..end] == s[..end]
    ensures s[..|s|] == s
  {
  }

  /** The default content type names no media category. */
  lemma OctetStreamIsOther(contentType: string)
    requires contentType == "application/octet-stream"
    ensures MediaTypes.FromMime(contentType) == MediaTypes.Other
  {
    var lower := Lower(contentType);
    assert lower[0] == 'a' && lower[1] == 'p';
    assert lower[..6][0] == 'a' && lower[..6][1] == 'p';
    assert !StartsWith(lower, "image/") && !StartsWith(lower, "video/") && !StartsWith(lower, "audio/");
  }

  /** Without a usable content type the media type comes from the key's extension. */
  lemma MissingContentTypeFallsBackToExtension(file: R2.FileListItem, head: R2.HeadResponse)
    requires !(head.HeadOk? && head.contentType.Some?)
    ensures Enrich(file, head).contentType == R2.DefaultContentType
    ensures Enrich(file, head).mediaType == MediaTypes.FromExtension(file.key)
  {
    var contentType := ReportedContentType(head);
    OctetStreamIsOther(contentType);
    assert MediaTypes.GetMediaType(file.key, Some(contentType)) == MediaTypes.FromExtension(file.key);
  }

  /** A content type with a media top-level type decides the media type,
      whatever the key's extension says. */
  lemma ContentTypeDecides(file: R2.FileListItem, contentType: string)
    requires MediaTypes.TopLevelCategory(Lower(contentType)) != MediaTypes.Other
    ensures Enrich(file, R2.HeadOk(Some(contentType), None, None)).mediaType
              == MediaTypes.TopLevelCategory(Lower(contentType))
  {
  }

  /** `GET /api/files`: 401 before the bucket is touched; 500 when listing
      fails; otherwise every listed file, enriched and in listing order, with
      its count. The session lookup may evict an expired session. */
  method Get(store: Auth.SessionStore, cookie: Option<string>, now: int,
             listing: Option<seq<R2.FileListItem>>, head: string -> R2.HeadResponse)
    returns (r: FilesResponse)
    modifies store
    ensures Status(r) == 200 <==>
              Truthy(cookie) && Auth.Live(old(store.sessions), store.hashToken(cookie.value), now) && listing.Some?
    ensures !(Truthy(cookie) && Auth.Live(old(store.sessions), store.hashToken(cookie.value), now)) ==> r == Unauthorized
    ensures Truthy(cookie) && Auth.Live(old(store.sessions), store.hashToken(cookie.value), now) ==>
              if listing.None? then r == ListFailed
              else
                && r.Listing?
                && r.files == EnrichAll(listing.value, head)
                && r.count == |r.files| == |listing.value|
    ensures store.sessions == if Truthy(cookie) then Auth.AfterCheck(old(store.sessions), store.hashToken(cookie.value), now)
                              else old(store.sessions)
  {
    var authed := store.IsAuthenticated(cookie, now);
    if !authed {
      return Unauthorized;
    }
    if listing.None? {
      return ListFailed;
    }
    var enriched := EnrichListing(listing.value, head);
    r := Listing(enriched, |enriched|);
  }
}
