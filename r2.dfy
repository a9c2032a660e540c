/**
  The object-store gateway of src/lib/r2.ts: the links a stored object is
  reachable under, the record an upload returns, the full listing of the
  bucket (every page, newest first), the defaults of a metadata lookup and the
  coarse media category of a content type.

  The S3 client is not modelled: what it answers (the pages of a listing, the
  answer to a HEAD request) is given as data, and the configuration read from
  the environment is a `Config` value.
*/
module R2 {
  import opened Text
  import Utf8
  import MediaTypes

  /** R2_PUBLIC_URL and NEXT_PUBLIC_APP_URL. */
  datatype Config = Config(publicUrl: string, appUrlSetting: Option<string>)

  const DefaultAppUrl: string := "http://localhost:3000"

  const DefaultContentType: string := "application/octet-stream"

  /** `process.env.NEXT_PUBLIC_APP_URL || "http://localhost:3000"`. */
  function AppUrl(cfg: Config): (url: string)
    ensures url != ""
  {
    if Truthy(cfg.appUrlSetting) then cfg.appUrlSetting.value else DefaultAppUrl
  }

  // ---------------------------------------------------------------------------
  // encodeURIComponent

  /** The characters `encodeURIComponent` leaves alone. */
  predicate Unreserved(c: char) {
    ('A' <= c <= 'Z') || ('a' <= c <= 'z') || ('0' <= c <= '9')
    || c == '-' || c == '_' || c == '.' || c == '!' || c == '~' || c == '*'
    || c == '\'' || c == '(' || c == ')'
  }

  predicate IsUpperHexDigit(c: char) {
    ('0' <= c <= '9') || ('A' <= c <= 'F')
  }

  /** The value of a hexadecimal digit. */
  function HexValue(c: char): nat
    requires IsUpperHexDigit(c)
  {
    if c <= '9' then c as int - '0' as int else c as int - 'A' as int + 10
  }

  /** The upper-case digit of a value below 16; reading it back gives the value. */
  function HexDigit(n: nat): (c: char)
    requires n < 16
    ensures IsUpperHexDigit(c)
    ensures HexValue(c) == n
  {
    if n < 10 then ('0' as int + n) as char else ('A' as int + n - 10) as char
  }

  /** The escape `%XY` of one byte; its two digits read back as the byte. */
  function Escape(b: Utf8.byte): (e: string)
    ensures |e| == 3 && e[0] == '%' && IsUpperHexDigit(e[1]) && IsUpperHexDigit(e[2])
    ensures 16 * HexValue(e[1]) + HexValue(e[2]) == b as int
  {
    ['%', HexDigit(b as int / 16), HexDigit(b as int % 16)]
  }

  /** `%XY` for every byte, upper-case hexadecimal: the escapes of the bytes,
      one after the other. */
  function PercentEncode(bytes: seq<Utf8.byte>): (r: string)
    ensures |r| == 3 * |bytes|
    ensures forall k :: 0 <= k < |bytes| ==> r[3 * k..3 * k + 3] == Escape(bytes[k])
  {
    if bytes == [] then []
    else
      var rest := PercentEncode(bytes[1..]);
      var r := Escape(bytes[0]) + rest;
      assert forall k :: 1 <= k < |bytes| ==>
        bytes[k] == bytes[1..][k - 1] && r[3 * k..3 * k + 3] == rest[3 * (k - 1)..3 * (k - 1) + 3];
      r
  }

  /** Escapes are text `encodeURIComponent` may produce. */
  lemma {:induction false} PercentEncodeIsUriText(bytes: seq<Utf8.byte>)
    ensures UriComponentText(PercentEncode(bytes))
  {
    if bytes != [] {
      var e := Escape(bytes[0]);
      assert UriComponentText(e) by {
        assert UriCharAt(e, 0) && UriCharAt(e, 1) && UriCharAt(e, 2);
      }
      PercentEncodeIsUriText(bytes[1..]);
      UriTextAppend(e, PercentEncode(bytes[1..]));
    }
  }

  /** Produced by `encodeURIComponent`: unreserved characters, and `%` only as
      the start of an escape of two hexadecimal digits. */
  predicate UriComponentText(s: string) {
    forall i :: 0 <= i < |s| ==> UriCharAt(s, i)
  }

  /** Character `i` is unreserved, or is the `%` of a complete escape. */
  predicate UriCharAt(s: string, i: int)
    requires 0 <= i < |s|
  {
    Unreserved(s[i]) || (s[i] == '%' && i + 2 < |s| && IsUpperHexDigit(s[i + 1]) && IsUpperHexDigit(s[i + 2]))
  }

  /** Putting two pieces of encoded text together gives encoded text. */
  lemma UriTextAppend(a: string, b: string)
    requires UriComponentText(a) && UriComponentText(b)
    ensures UriComponentText(a + b)
  {
    var ab := a + b;
    forall i | 0 <= i < |ab| ensures UriCharAt(ab, i) {
      if i < |a| {
        assert UriCharAt(a, i);
        if !Unreserved(a[i]) {
          assert ab[i + 1] == a[i + 1] && ab[i + 2] == a[i + 2];
        }
      } else {
        var j := i - |a|;
        assert UriCharAt(b, j);
        if !Unreserved(b[j]) {
          assert ab[i + 1] == b[j + 1] && ab[i + 2] == b[j + 2];
        }
      }
    }
  }

  /** `encodeURIComponent`: keeps the unreserved characters and percent-encodes
      the UTF-8 bytes of every other one. */
  function EncodeUriComponent(s: string): (r: string)
    ensures UriComponentText(r)
    ensures (forall i :: 0 <= i < |s| ==> Unreserved(s[i])) ==> r == s
    ensures |r| >= |s|
  {
    if s == [] then []
    else
      var head := if Unreserved(s[0]) then [s[0]] else PercentEncode(Utf8.EncodeChar(s[0]));
      PercentEncodeIsUriText(Utf8.EncodeChar(s[0]));
      var rest := EncodeUriComponent(s[1..]);
      UriTextAppend(head, rest);
      head + rest
  }

  /** `encodeURIComponent` works character by character. */
  lemma {:induction false} EncodeUriAppend(a: string, b: string)
    ensures EncodeUriComponent(a + b) == EncodeUriComponent(a) + EncodeUriComponent(b)
    decreases |a|
  {
    if a == [] {
      assert a + b == b;
    } else {
      assert (a + b)[0] == a[0] && (a + b)[1..] == a[1..] + b;
      EncodeUriAppend(a[1..], b);
    }
  }

  /** One character is kept when it is unreserved, and otherwise becomes the
      escapes of its UTF-8 bytes. */
  lemma EncodeUriChar(c: char)
    ensures EncodeUriComponent([c]) == if Unreserved(c) then [c] else PercentEncode(Utf8.EncodeChar(c))
  {
    assert [c][1..] == [];
  }

  // ---------------------------------------------------------------------------
  // Links

  /** `getPublicUrl`. */
  function GetPublicUrl(cfg: Config, key: string): (url: string)
    ensures StartsWith(url, cfg.publicUrl + "/") && EndsWith(url, key)
    ensures |url| == |cfg.publicUrl| + 1 + |key|
  {
    cfg.publicUrl + "/" + key
  }

  /** `getEmbedUrl`: the viewer page of the application, with the key encoded
      as one path segment. */
  function GetEmbedUrl(cfg: Config, key: string): (url: string)
    ensures url == AppUrl(cfg) + "/view/" + EncodeUriComponent(key)
    ensures StartsWith(url, AppUrl(cfg) + "/view/")
    ensures UriComponentText(url[|AppUrl(cfg)| + 6..])
  {
    var prefix := AppUrl(cfg) + "/view/";
    var url := prefix + EncodeUriComponent(key);
    assert url[..|prefix|] == prefix;
    assert url[|AppUrl(cfg)| + 6..] == EncodeUriComponent(key);
    url
  }

  /** A key made of unreserved characters only (every key the upload endpoint
      derives without a custom name) appears verbatim in its embed link. */
  lemma EmbedUrlOfPlainKey(cfg: Config, key: string)
    requires forall i :: 0 <= i < |key| ==> Unreserved(key[i])
    ensures GetEmbedUrl(cfg, key) == AppUrl(cfg) + "/view/" + key
  {
  }

  // ---------------------------------------------------------------------------
  // uploadFile

  /** The `UploadedFile` record `uploadFile` returns once the PUT succeeded;
      `uploadedAt` stands for the ISO time stamp the source takes from the clock. */
  datatype UploadedFile = UploadedFile(
    key: string, url: string, embedUrl: string, size: nat, contentType: string, uploadedAt: string)

  /** `uploadFile`: the record echoes the key and content type, takes its size
      from the payload itself (never from a client's claim), and carries the
      same links `getPublicUrl` and `getEmbedUrl` derive. */
  function UploadFile(cfg: Config, key: string, body: seq<Utf8.byte>, contentType: string,
                      uploadedAt: string): (r: UploadedFile)
    ensures r.key == key && r.contentType == contentType && r.size == |body|
    ensures r.url == GetPublicUrl(cfg, key) && r.embedUrl == GetEmbedUrl(cfg, key)
  {
    UploadedFile(key, GetPublicUrl(cfg, key), GetEmbedUrl(cfg, key), |body|, contentType, uploadedAt)
  }

  // ---------------------------------------------------------------------------
  // listFiles

  /** One entry of a ListObjectsV2 page; times are milliseconds since the epoch. */
  datatype StoredObject = StoredObject(key: Option<string>, size: Option<nat>, lastModified: Option<int>)

  /** One ListObjectsV2 response. */
  datatype ListPage = ListPage(
    contents: Option<seq<StoredObject>>, isTruncated: bool, nextContinuationToken: Option<string>)

  /** `FileListItem`. */
  datatype FileListItem = FileListItem(
    key: string, size: nat, lastModified: Option<int>, url: string, embedUrl: string)

  /** The continuation token carried to the next request. */
  function NextToken(page: ListPage): Option<string> {
    if page.isTruncated then page.nextContinuationToken else None
  }

  /** The do-while loop asks for another page exactly when the token is non-empty. */
  predicate Continues(page: ListPage) {
    Truthy(NextToken(page))
  }

  /** The store eventually answers a page that ends the listing. */
  predicate Ends(pages: seq<ListPage>) {
    exists i :: 0 <= i < |pages| && !Continues(pages[i])
  }

  /** How many pages the loop requests: up to and including the first page
      that is not truncated or has no (or an empty) continuation token. */
  function PagesRead(pages: seq<ListPage>): (n: nat)
    requires Ends(pages)
    ensures 1 <= n <= |pages|
    ensures !Continues(pages[n - 1])
    ensures forall j :: 0 <= j < n - 1 ==> Continues(pages[j])
  {
    if !Continues(pages[0]) then 1
    else
      assert Ends(pages[1..]) by {
        var i :| 0 <= i < |pages| && !Continues(pages[i]);
        assert i > 0 && !Continues(pages[1..][i - 1]);
      }
      1 + PagesRead(pages[1..])
  }

  /** The list item for an object that has a key. */
  function ListItem(cfg: Config, entry: StoredObject): (item: FileListItem)
    requires Truthy(entry.key)
    ensures item.key == entry.key.value && item.key != ""
    ensures item.size == entry.size.GetOr(0) && item.lastModified == entry.lastModified
    ensures item.url == GetPublicUrl(cfg, item.key) && item.embedUrl == GetEmbedUrl(cfg, item.key)
  {
    var key := entry.key.value;
    FileListItem(key, entry.size.GetOr(0), entry.lastModified, GetPublicUrl(cfg, key), GetEmbedUrl(cfg, key))
  }

  /** The items the inner loop pushes for a run of objects: one per object with
      a key, in order. */
  function Items(cfg: Config, objects: seq<StoredObject>): (items: seq<FileListItem>)
    ensures |items| <= |objects|
    ensures forall k :: 0 <= k < |items| ==> items[k].key != ""
    decreases |objects|
  {
    if objects == [] then []
    else
      var last := objects[|objects| - 1];
      Items(cfg, objects[..|objects| - 1]) + (if Truthy(last.key) then [ListItem(cfg, last)] else [])
  }

  /** Everything the loop has accumulated after the given pages. */
  function Collected(cfg: Config, pages: seq<ListPage>): (items: seq<FileListItem>)
    ensures forall k :: 0 <= k < |items| ==> items[k].key != ""
    decreases |pages|
  {
    if pages == [] then []
    else Collected(cfg, pages[..|pages| - 1]) + Items(cfg, pages[|pages| - 1].contents.GetOr([]))
  }

  /** The time `listFiles` sorts by: a missing time counts as the epoch. */
  function SortTime(item: FileListItem): int {
    item.lastModified.GetOr(0)
  }

  predicate NewestFirst(s: seq<FileListItem>) {
    forall i, j :: 0 <= i < j < |s| ==> SortTime(s[i]) >= SortTime(s[j])
  }

  /** Places `x` before the first item that is not newer than it. */
  function InsertNewestFirst(x: FileListItem, s: seq<FileListItem>): (r: seq<FileListItem>)
    requires NewestFirst(s)
    ensures NewestFirst(r)
    ensures multiset(r) == multiset(s) + multiset{x}
    ensures |r| == |s| + 1
  {
    if s == [] || SortTime(s[0]) <= SortTime(x) then [x] + s
    else
      var rest := InsertNewestFirst(x, s[1..]);
      InsertBehindHead(x, s, rest);
      [s[0]] + rest
  }

  /** Keeping the head of `s` in front of `x` inserted into its tail keeps the order. */
  lemma InsertBehindHead(x: FileListItem, s: seq<FileListItem>, rest: seq<FileListItem>)
    requires NewestFirst(s) && s != [] && SortTime(s[0]) > SortTime(x)
    requires NewestFirst(rest) && multiset(rest) == multiset(s[1..]) + multiset{x}
    ensures NewestFirst([s[0]] + rest)
    ensures multiset([s[0]] + rest) == multiset(s) + multiset{x}
  {
    assert s == [s[0]] + s[1..];
    forall k | 0 <= k < |rest| ensures SortTime(rest[k]) <= SortTime(s[0]) {
      assert rest[k] in multiset(rest);
      assert rest[k] == x || rest[k] in multiset(s[1..]);
    }
    ConsNewestFirst(s[0], rest);
  }

  lemma ConsNewestFirst(a: FileListItem, s: seq<FileListItem>)
    requires NewestFirst(s)
    requires forall k :: 0 <= k < |s| ==> SortTime(s[k]) <= SortTime(a)
    ensures NewestFirst([a] + s)
  {
    var r := [a] + s;
    forall i, j | 0 <= i < j < |r| ensures SortTime(r[i]) >= SortTime(r[j]) {
      assert r[j] == s[j - 1];
      if i > 0 {
        assert r[i] == s[i - 1];
      }
    }
  }

  /** `allFiles.sort((a, b) => timeB - timeA)`: a stable sort, newest first. */
  function SortNewestFirst(s: seq<FileListItem>): (r: seq<FileListItem>)
    ensures NewestFirst(r)
    ensures multiset(r) == multiset(s)
    ensures |r| == |s|
  {
    if s == [] then []
    else
      assert s == [s[0]] + s[1..];
      InsertNewestFirst(s[0], SortNewestFirst(s[1..]))
  }

  /** `listFiles`: requests pages until the store reports no further page,
      keeps every object that has a key (its size defaulting to 0, its links
      derived from the key), then sorts the whole list newest first. */
  method ListFiles(cfg: Config, pages: seq<ListPage>) returns (files: seq<FileListItem>)
    requires Ends(pages)
    ensures files == SortNewestFirst(Collected(cfg, pages[..PagesRead(pages)]))
  {
    var allFiles: seq<FileListItem> := [];
    var i := 0;
    var more := true;
    while more
      invariant 0 <= i <= PagesRead(pages)
      invariant more <==> i < PagesRead(pages)
      invariant allFiles == Collected(cfg, pages[..i])
      decreases PagesRead(pages) - i
    {
      var response := pages[i];
      if response.contents.Some? {
        allFiles := PushItems(cfg, allFiles, response.contents.value);
      }
      assert pages[..i + 1][..i] == pages[..i];
      var continuationToken := NextToken(response);
      more := Truthy(continuationToken);
      i := i + 1;
    }
    files := SortNewestFirst(allFiles);
  }

  /** The inner loop of `listFiles`: pushes an item for every object of the
      page that has a key, in page order. */
  method PushItems(cfg: Config, allFiles: seq<FileListItem>, objects: seq<StoredObject>)
    returns (extended: seq<FileListItem>)
    ensures extended == allFiles + Items(cfg, objects)
  {
    extended := allFiles;
    var j := 0;
    while j < |objects|
      invariant 0 <= j <= |objects|
      invariant extended == allFiles + Items(cfg, objects[..j])
    {
      var entry := objects[j];
      if Truthy(entry.key) {
        extended := extended + [ListItem(cfg, entry)];
      }
      assert objects[..j + 1][..j] == objects[..j];
      j := j + 1;
    }
    assert objects[..j] == objects;
  }

  // ---------------------------------------------------------------------------
  // Properties of the listing

  /** The objects of a run of pages, in order (absent contents count as none). */
  function Objects(pages: seq<ListPage>): seq<StoredObject>
    decreases |pages|
  {
    if pages == [] then [] else Objects(pages[..|pages| - 1]) + pages[|pages| - 1].contents.GetOr([])
  }

  lemma {:induction false} ItemsAppend(cfg: Config, a: seq<StoredObject>, b: seq<StoredObject>)
    ensures Items(cfg, a + b) == Items(cfg, a) + Items(cfg, b)
    decreases |b|
  {
    if b == [] {
      assert a + b == a;
    } else {
      var ab := a + b;
      assert ab[..|ab| - 1] == a + b[..|b| - 1];
      ItemsAppend(cfg, a, b[..|b| - 1]);
    }
  }

  /** Page by page, in page order, the listing keeps exactly the objects that
      carry a key: it is the same as concatenating all pages first and then
      keeping the keyed objects. */
  lemma {:induction false} CollectedIsKeyedObjects(cfg: Config, pages: seq<ListPage>)
    ensures Collected(cfg, pages) == Items(cfg, Objects(pages))
    decreases |pages|
  {
    if pages != [] {
      CollectedIsKeyedObjects(cfg, pages[..|pages| - 1]);
      ItemsAppend(cfg, Objects(pages[..|pages| - 1]), pages[|pages| - 1].contents.GetOr([]));
    }
  }

  /** Each kept object becomes one item: its key, its size or 0, its time, and
      the links of `getPublicUrl` and `getEmbedUrl`; objects without a key are
      skipped. */
  lemma {:induction false} ItemsAreKeyedObjects(cfg: Config, objects: seq<StoredObject>)
    ensures |Items(cfg, objects)| <= |objects|
    ensures forall item :: item in Items(cfg, objects) ==>
              && item.url == GetPublicUrl(cfg, item.key)
              && item.embedUrl == GetEmbedUrl(cfg, item.key)
              && exists o :: o in objects && o.key == Some(item.key) && item.key != ""
                             && item.size == o.size.GetOr(0) && item.lastModified == o.lastModified
    ensures (forall o :: o in objects ==> Truthy(o.key)) ==> |Items(cfg, objects)| == |objects|
    ensures forall o :: o in objects && Truthy(o.key) ==> ListItem(cfg, o) in Items(cfg, objects)
    decreases |objects|
  {
    KeyedObjectsKept(cfg, objects);
    if objects != [] {
      var init := objects[..|objects| - 1];
      ItemsAreKeyedObjects(cfg, init);
      assert forall o :: o in init ==> o in objects;
    }
  }

  /** No object with a key is lost: each one's item is in the listing. */
  lemma {:induction false} KeyedObjectsKept(cfg: Config, objects: seq<StoredObject>)
    ensures forall o :: o in objects && Truthy(o.key) ==> ListItem(cfg, o) in Items(cfg, objects)
    decreases |objects|
  {
    if objects != [] {
      var init := objects[..|objects| - 1];
      var last := objects[|objects| - 1];
      KeyedObjectsKept(cfg, init);
      assert objects == init + [last];
      forall o | o in objects && Truthy(o.key) ensures ListItem(cfg, o) in Items(cfg, objects) {
        if o !in init {
          assert o == last;
        }
      }
    }
  }

  /** Items of the same time keep the order in which the pages listed them. */
  function WithTime(s: seq<FileListItem>, t: int): seq<FileListItem> {
    if s == [] then []
    else (if SortTime(s[0]) == t then [s[0]] else []) + WithTime(s[1..], t)
  }

  lemma {:induction false} InsertKeepsTimeOrder(x: FileListItem, s: seq<FileListItem>, t: int)
    requires NewestFirst(s)
    ensures WithTime(InsertNewestFirst(x, s), t) ==
              (if SortTime(x) == t then [x] else []) + WithTime(s, t)
    decreases |s|
  {
    if s == [] || SortTime(s[0]) <= SortTime(x) {
      assert ([x] + s)[1..] == s;
    } else {
      InsertKeepsTimeOrder(x, s[1..], t);
      InsertBehindKeepsTimeOrder(x, s, InsertNewestFirst(x, s[1..]), t);
    }
  }

  /** The step of the induction above, where `x` goes behind the head of `s`
      into `rest`. */
  lemma InsertBehindKeepsTimeOrder(x: FileListItem, s: seq<FileListItem>, rest: seq<FileListItem>, t: int)
    requires s != [] && SortTime(s[0]) > SortTime(x)
    requires WithTime(rest, t) == (if SortTime(x) == t then [x] else []) + WithTime(s[1..], t)
    ensures WithTime([s[0]] + rest, t) == (if SortTime(x) == t then [x] else []) + WithTime(s, t)
  {
    WithTimeCons(s[0], rest, t);
    WithTimeCons(s[0], s[1..], t);
    assert [s[0]] + s[1..] == s;
    SwapDisjoint(if SortTime(s[0]) == t then [s[0]] else [],
                 if SortTime(x) == t then [x] else [],
                 WithTime(s[1..], t));
  }

  lemma WithTimeCons(a: FileListItem, s: seq<FileListItem>, t: int)
    ensures WithTime([a] + s, t) == (if SortTime(a) == t then [a] else []) + WithTime(s, t)
  {
    assert ([a] + s)[1..] == s;
  }

  lemma SwapDisjoint<T>(h: seq<T>, x: seq<T>, w: seq<T>)
    requires h == [] || x == []
    ensures h + (x + w) == x + (h + w)
  {
    if h == [] {
      assert h + (x + w) == x + w && h + w == w;
    } else {
      assert x + w == w && x + (h + w) == h + w;
    }
  }

  /** The sort is stable: for every time, the items of that time appear in the
      order the listing collected them, as with the (stable) Array.prototype.sort. */
  lemma {:induction false} SortIsStable(s: seq<FileListItem>, t: int)
    ensures WithTime(SortNewestFirst(s), t) == WithTime(s, t)
    decreases |s|
  {
    if s != [] {
      SortIsStable(s[1..], t);
      InsertKeepsTimeOrder(s[0], SortNewestFirst(s[1..]), t);
    }
  }

  /** The result of `listFiles` holds exactly the collected items, newest first. */
  lemma ListFilesSortedPermutation(cfg: Config, pages: seq<ListPage>)
    requires Ends(pages)
    ensures NewestFirst(SortNewestFirst(Collected(cfg, pages[..PagesRead(pages)])))
    ensures multiset(SortNewestFirst(Collected(cfg, pages[..PagesRead(pages)])))
            == multiset(Items(cfg, Objects(pages[..PagesRead(pages)])))
  {
    CollectedIsKeyedObjects(cfg, pages[..PagesRead(pages)]);
  }

  // ---------------------------------------------------------------------------
  // getFileMetadata

  /** What a HEAD request yields: a failure (missing object or any other error)
      or the response headers. */
  datatype HeadResponse =
    | HeadFailed
    | HeadOk(contentType: Option<string>, contentLength: Option<nat>, lastModified: Option<int>)

  datatype FileMetadata = FileMetadata(contentType: string, size: nat, lastModified: Option<int>)

  /** `getFileMetadata`: `null` on any failure; otherwise the headers, a missing
      content type read as `application/octet-stream` and a missing length as 0. */
  function GetFileMetadata(head: HeadResponse): (r: Option<FileMetadata>)
    ensures r.None? <==> head.HeadFailed?
    ensures r.Some? ==> r.value.contentType == head.contentType.GetOr(DefaultContentType)
    ensures r.Some? ==> r.value.size == head.contentLength.GetOr(0)
    ensures r.Some? ==> r.value.lastModified == head.lastModified
  {
    match head
    case HeadFailed => None
    case HeadOk(contentType, contentLength, lastModified) =>
      Some(FileMetadata(contentType.GetOr(DefaultContentType), contentLength.GetOr(0), lastModified))
  }

  // ---------------------------------------------------------------------------
  // getMediaCategory

  /** `getMediaCategory`: the same prefix test as types.ts, but on the content
      type as given, without lower-casing it. Whenever it names a media
      category, types.ts names the same one, and on a lower-case content type
      the two agree outright; on upper case they differ (see below). */
  function GetMediaCategory(contentType: string): (r: MediaTypes.MediaType)
    ensures r != MediaTypes.Other ==> r == MediaTypes.FromMime(contentType)
    ensures r == MediaTypes.Other <==>
              && !StartsWith(contentType, "image/")
              && !StartsWith(contentType, "video/")
              && !StartsWith(contentType, "audio/")
    ensures IsLower(contentType) ==> r == MediaTypes.FromMime(contentType)
  {
    MediaTypes.KeepsTopLevel(contentType);
    MediaTypes.TopLevelCategory(contentType)
  }

  /** `getMediaCategory` is case sensitive where `getMediaTypeFromMime` is
      not: `IMAGE/PNG` is `other` to the one and an image to the other. */
  lemma MediaCategoryIsCaseSensitive(contentType: string)
    requires contentType == "IMAGE/PNG"
    ensures GetMediaCategory(contentType) == MediaTypes.Other
    ensures MediaTypes.FromMime(contentType) == MediaTypes.Image
  {
    assert contentType[..6] == "IMAGE/";
    LowerOfPrefix(contentType, "IMAGE/");
    assert Lower("IMAGE/") == "image/";
  }
}
