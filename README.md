# upload.tommyy.dev — a Dafny model of the upload service core

upload.tommyy.dev is a small single-user file host. It is a Next.js application
in front of a Cloudflare R2 bucket. One administrator password opens a session.
The session is a random bearer token in a cookie; the server keeps only the
token's SHA-256 digest and its expiry. An authenticated caller can upload a file
under a derived object key, and can list the bucket with each object's content
type, media type and display name.

This project models the logic behind that:

- **`Auth`** (auth.dfy). The session manager. `SessionStore` is a class whose
  `sessions` field is the digest-to-expiry map. Its methods create, check and
  destroy sessions the way `src/lib/auth.ts` does: a sweep of expired entries on
  creation, lazy eviction on lookup, idempotent deletion. The table operations
  are also written as functions on map values (`Created`, `AfterCheck`,
  `Destroyed`). Lemmas over any sequence of events show that a destroyed or
  expired token is never accepted again. `ValidatePassword` fails closed and
  compares UTF-8 encodings. `Utf8` (utf8.dfy) proves that encoding injective, so
  the check accepts exactly the configured password.
- **`AuthRoute`** (auth_route.dfy). The `POST`, `GET` and `DELETE` handlers of
  `/api/auth`: the status each returns, the cookie it sets, and what it does to
  the session table.
- **`MediaTypes`** (media_types.dfy). Classification as image, video, audio or
  other. The MIME type is tried first, then the file's extension, both
  case-insensitively.
- **`Upload`** (upload.dfy). `sanitizeFilename` is modelled as its three regular
  expression passes. Then come `getExtension`, the object key derived from a
  random id and either the file name or a custom name, and the order of the
  upload checks: session, form, size, empty file, bucket quota.
- **`R2`** (r2.dfy). The bucket gateway:
  - the paginated `listFiles` loop over a finite sequence of pages, then the
    newest-first sort;
  - the public and embed links, with `encodeURIComponent`;
  - the record `uploadFile` returns;
  - the defaults of `getFileMetadata`;
  - the case-sensitive `getMediaCategory`.
- **`FilesRoute`** (files_route.dfy). `GET /api/files`. It lists the bucket and
  enriches the files in batches of twenty, keeping their order.
- **`Text`** (text.dfy) holds the JavaScript string operations the core uses:
  `toLowerCase` on ASCII, `startsWith`, `endsWith`, `lastIndexOf` and `trim`.

The bucket, the clock, the random token and id, the digest function and the
environment are not computed. They are given as parameters:

- a `Config` holds the bucket and application URLs;
- the pages of a listing are a sequence of `ListPage`;
- a HEAD request is a function from key to `HeadResponse`;
- `now` is the current time in milliseconds;
- `hashToken` is fixed when the `SessionStore` is constructed.

Some behaviour of the source is worth knowing:

- With a custom name, the extension taken from the file's own name is appended
  without being sanitized. A key can therefore contain characters that
  `sanitizeFilename` would have removed (`AppendedExtensionIsNotSanitized`).
- `getMediaCategory` in r2.ts is case-sensitive, while types.ts ignores case
  (`MediaCategoryIsCaseSensitive`).
- `Promise.allSettled` in the listing never reports a rejection, because
  `getFileMetadata` turns every failure into `null`. The model proves that the
  listing returns every file (`EnrichListing`).

## Model

| member | source | states |
|---|---|---|
| Auth.TimingSafeEqual | src/lib/auth.ts:36 | On equal-length buffers the comparison is true exactly when the bytes are equal |
| Auth.ValidatePassword | src/lib/auth.ts:22-37 | False while no admin password is set or it is empty; false when the UTF-8 lengths differ; true exactly when the password equals the configured one |
| Utf8.EncodeEqualIff | src/lib/auth.ts:29-30 | Two strings have the same UTF-8 bytes exactly when they are equal |
| Utf8.EncodeInjective | src/lib/auth.ts:29-30 | Equal UTF-8 encodings come from equal strings |
| Auth.Created | src/lib/auth.ts:39-54 | After createSession the digest expires seven days from now; every other entry stays exactly when it is live, with its expiry unchanged; nothing left has expired |
| Auth.AfterCheck | src/lib/auth.ts:56-68 | After a lookup the digest stays exactly when it has not expired; every other entry is untouched |
| Auth.Destroyed | src/lib/auth.ts:70-73 | After destroySession the digest is gone and every other entry is untouched |
| Auth.Swept | src/lib/auth.ts:47-51 | The sweep keeps exactly the entries that have not expired before `now`, with their expiry unchanged |
| Auth.SessionStore.CreateSession | src/lib/auth.ts:39-54 | Returns the token; the table gains the token's digest with expiry now + 604800000; afterwards no entry has expired; every other live entry is kept unchanged |
| Auth.SessionStore.IsValidSession | src/lib/auth.ts:56-68 | True exactly when the digest is present and its expiry is not before `now`; an expired entry is deleted and nothing else changes |
| Auth.SessionStore.DestroySession | src/lib/auth.ts:70-73 | Removes the token's digest and nothing else |
| Auth.SessionStore.IsAuthenticated | src/lib/auth.ts:75-82 | True exactly when the cookie holds a non-empty token whose session is live; the table changes only by that lookup's eviction |
| Auth.EvictionIsUnobservable | src/lib/auth.ts:62-65 | Lazy eviction changes no answer of any lookup at the same or a later time |
| Auth.SweepIsUnobservable | src/lib/auth.ts:47-51 | The sweep changes no answer of any lookup at the same or a later time |
| Auth.CreatedSessionLifetime | src/lib/auth.ts:43-45 | A new token is accepted at every time up to seven days later and at no time after that |
| Auth.DestroyIdempotent | src/lib/auth.ts:70-73 | Destroying twice equals destroying once, and the destroyed digest has no live session |
| Auth.RevokedStaysRevoked | src/lib/auth.ts:39-73 | A digest with no live session from some time on stays so through any sequence of other creations, lookups and deletions |
| Auth.DestroyedTokenNeverValid | src/lib/auth.ts:70-73 | After destroySession the token is never accepted again, whatever other events follow |
| Auth.ExpiredTokenNeverValid | src/lib/auth.ts:39-68 | Once seven days have passed since creation, no later event makes the token valid |
| AuthRoute.SuppliedPassword | src/app/api/auth/route.ts:13-16 | A password is supplied exactly by a parsed body whose `password` is a non-empty string, and it is that string; an unparseable body, a missing or non-string password and `""` supply none |
| AuthRoute.Post | src/app/api/auth/route.ts:11-54 | 400 with the table unchanged for an unparseable body or a missing, empty or non-string password; 401 with the table unchanged for a wrong one; 200 exactly when it is the configured password, with one session created and a cookie holding the raw token for 604800 seconds |
| AuthRoute.Get | src/app/api/auth/route.ts:56-71 | 200 exactly when a non-empty cookie token has a live session, otherwise 401; the table changes only by lazy eviction |
| AuthRoute.Delete | src/app/api/auth/route.ts:73-95 | Always 200 with the cookie cleared to "" and max-age 0; the session is destroyed only when a token was presented |
| Text.Lower | src/lib/types.ts:48 | Same length, each character lower-cased |
| Text.LastIndexOf | src/lib/types.ts:59 | -1 exactly when the character is absent; otherwise an occurrence with none after it |
| Text.LastIndexAt | src/lib/types.ts:59 | An occurrence with no other occurrence after it is the one `lastIndexOf` returns |
| Text.Trim | src/app/api/upload/route.ts:69-70 | The result neither starts nor ends with white space; it is empty exactly when the input is all white space; input without white space at its ends is returned as it is |
| Text.TrimIsSlice | src/app/api/upload/route.ts:69-70 | What `trim` keeps is one contiguous piece of the input |
| Text.TrimCutsWhitespace | src/app/api/upload/route.ts:69-70 | Everything `trim` cuts from either side of what it keeps is white space |
| MediaTypes.FromMime | src/lib/types.ts:47-56 | The result is the category of the lower-cased MIME type's top-level prefix; checking the exact sets first changes nothing |
| MediaTypes.ListedMimesHaveTopLevel | src/lib/types.ts:29-45 | Every MIME type in the exact sets starts with its own category's prefix |
| MediaTypes.FromMimeIgnoresCase | src/lib/types.ts:47-48 | The MIME classification depends only on the lower-cased string |
| MediaTypes.AudioPrefixIsAudio | src/lib/types.ts:47-56 | Any MIME type whose lower-cased form starts with `audio/` (`AUDIO/MPEG`, `Audio/ogg`) is audio |
| MediaTypes.KeepsTopLevel | src/lib/types.ts:47-56 | A MIME type whose top-level prefix is already a lower-case media prefix keeps that category when lower-cased; a lower-case MIME type is unchanged by lower-casing |
| MediaTypes.FromExtension | src/lib/types.ts:58-67 | `other` without a dot; otherwise the category of the lower-cased suffix from the last dot |
| MediaTypes.GetMediaType | src/lib/types.ts:69-75 | A given MIME type that classifies wins; otherwise the extension decides |
| MediaTypes.GetMediaTypeByTopLevel | src/lib/types.ts:69-75 | The media type is the MIME type's top-level category if that is a media category, else the extension's; the emptiness test is redundant |
| MediaTypes.UpperCaseExtensionExample | src/lib/types.ts:58-67 | `clip.MP4` with an empty MIME type is a video |
| MediaTypes.MimeBeatsExtensionExample | src/lib/types.ts:69-73 | Any name with `audio/mpeg` is audio |
| MediaTypes.NoExtensionExample | src/lib/types.ts:58-60 | `noext` with an empty MIME type is other |
| MediaTypes.WebmIsVideo | src/lib/types.ts:19-27 | A name ending in `.webm`, in either case, is a video although `.webm` is also an audio extension |
| Upload.ReplaceDisallowed | src/app/api/upload/route.ts:11 | Same length; every allowed character kept in place and every other one replaced by `_`; the result is all allowed and keeps the same non-separator characters |
| Upload.CollapseUnderscores | src/app/api/upload/route.ts:12 | No longer than the input, same first character, and no two adjacent underscores |
| Upload.CollapseRun | src/app/api/upload/route.ts:12 | Two adjacent underscores collapse exactly like one, wherever they stand; with CollapseKeepsSingleUnderscores this fixes the result on every input |
| Upload.CollapseDropsOnlyUnderscores | src/app/api/upload/route.ts:12 | Collapsing removes only underscores and introduces no disallowed character |
| Upload.CollapseKeepsSingleUnderscores | src/app/api/upload/route.ts:12 | A string without `__` is left unchanged |
| Upload.TrimLeadingUnderscores | src/app/api/upload/route.ts:13 | Removes a prefix made only of underscores, after which the result does not start with `_` |
| Upload.TrimTrailingUnderscores | src/app/api/upload/route.ts:13 | Removes a suffix made only of underscores, after which the result does not end with `_` |
| Upload.TrimEdges | src/app/api/upload/route.ts:13 | On allowed characters without `__`, trimming the edge underscores gives a safe name with the same kept characters, and changes nothing when there is no edge underscore |
| Upload.Sanitize | src/app/api/upload/route.ts:9-14 | The result uses only `[A-Za-z0-9._-]`, has no `__` and no leading or trailing `_`, keeps every allowed non-underscore character in order, and leaves a name of that shape unchanged |
| Upload.ReplaceAppend | src/app/api/upload/route.ts:11 | The replacement works character by character: it distributes over concatenation |
| Upload.SanitizeSeparator | src/app/api/upload/route.ts:11-12 | Any disallowed character, at any position, sanitizes exactly as an `_` there would |
| Upload.SanitizeRun | src/app/api/upload/route.ts:12 | Two adjacent underscores anywhere in a name sanitize as one |
| Upload.AbsorbSeparators | src/app/api/upload/route.ts:11-12 | An underscore followed by any run of underscores and disallowed characters sanitizes as the underscore alone |
| Upload.SeparatorsBecomeOne | src/app/api/upload/route.ts:11-12 | A non-empty run of underscores and disallowed characters anywhere in a name sanitizes as one `_` in its place |
| Upload.JoinSafeNames | src/app/api/upload/route.ts:9-14 | Two non-empty safe names joined by any non-empty run of separators sanitize to the two names joined by exactly one `_` |
| Upload.CollapseAppendUnderscore | src/app/api/upload/route.ts:12 | One more `_` at the end joins a final run of underscores and is kept otherwise |
| Upload.TrimLeadingAppendUnderscore | src/app/api/upload/route.ts:13 | With one more `_` at the end, dropping the leading underscores leaves that `_` after what was left before, unless nothing is left |
| Upload.TrimEdgesAppendUnderscore | src/app/api/upload/route.ts:13 | The edge trim ignores one more `_` at the end |
| Upload.LeadingUnderscoreVanishes | src/app/api/upload/route.ts:9-14 | An `_` at the start of a name does not change its sanitized form |
| Upload.TrailingUnderscoreVanishes | src/app/api/upload/route.ts:9-14 | An `_` at the end of a name does not change its sanitized form |
| Upload.LeadingSeparatorsVanish | src/app/api/upload/route.ts:9-14 | A non-empty run of underscores and disallowed characters at the start of a name disappears |
| Upload.TrailingSeparatorsVanish | src/app/api/upload/route.ts:9-14 | A non-empty run of underscores and disallowed characters at the end of a name disappears |
| Upload.EdgeSeparatorExample | src/app/api/upload/route.ts:9-14 | `_a_b` becomes `a_b` |
| Upload.MyFileExample | src/app/api/upload/route.ts:9-14 | `My File! v2.png` becomes `My_File_v2.png` |
| Upload.SanitizeIdempotent | src/app/api/upload/route.ts:9-14 | Sanitizing twice is sanitizing once |
| Upload.SanitizeFixedPoints | src/app/api/upload/route.ts:9-14 | A name is unchanged by sanitizing exactly when it is already safe |
| Upload.SanitizeExample | src/app/api/upload/route.ts:9-14 | `a! b` becomes `a_b` |
| Upload.GetExtension | src/app/api/upload/route.ts:16-20 | Empty exactly when the name has no dot; otherwise a lower-case suffix of the lower-cased name that starts with a dot and holds no other |
| Upload.ExtensionAfterLastDot | src/app/api/upload/route.ts:16-20 | A dot with no dot after it starts the extension |
| Upload.ExtensionDecidesMediaType | src/app/api/upload/route.ts:16-20 | The media type types.ts infers from a name is the category of the extension getExtension returns |
| Upload.KeyFromFileName | src/app/api/upload/route.ts:76-79 | Without a custom name the key is `id_` followed by the sanitized file name, a safe name |
| Upload.CustomKey | src/app/api/upload/route.ts:71-75 | The key is `id_` and the sanitized name when the lower-cased name already ends with the extension, and `id_`, the name and the extension otherwise; a lower-case extension always ends the lower-cased key |
| Upload.KeyEndsWithExtension | src/app/api/upload/route.ts:71-75 | Both shapes of a custom key end, lower-cased, with the extension, and the longer one starts with the shorter |
| Upload.DeriveKey | src/app/api/upload/route.ts:65-79 | Every key starts with `id_`; without a usable custom name the rest is a safe name; with one the lower-cased key ends with the file's extension |
| Upload.KeyFromCustomName | src/app/api/upload/route.ts:65-75 | With a non-blank custom name the key is the custom key of the sanitized trimmed name and the file's extension: it starts with `id_` and that name, and its lower-cased form ends with the extension |
| Upload.CustomKeyNotDoubled | src/app/api/upload/route.ts:71-75 | The custom key ends in the extension twice only if the sanitized name already did |
| Upload.ExtensionNeverDoubled | src/app/api/upload/route.ts:65-75 | For an eight-hex-digit id the derivation never doubles the extension |
| Upload.CustomNameExample | src/app/api/upload/route.ts:65-75 | `a b.PNG` for a `.png` file gives `id_a_b.PNG`, without a second extension |
| Upload.AppendedExtensionIsNotSanitized | src/app/api/upload/route.ts:74 | With custom name `x` and extension `.a b` the key is `id_x.a b`, which holds a character outside `[A-Za-z0-9._-]` |
| Upload.SpacedExtension | src/app/api/upload/route.ts:16-20 | `v.a b` has the extension `.a b` |
| Upload.PlainKeyEmbedUrl | src/app/api/upload/route.ts:76-79 | A key derived without a custom name appears unencoded in its embed link |
| Upload.TotalSize | src/app/api/upload/route.ts:55 | The sum of the listed sizes: 0 for an empty listing, the one size for a single file, and no smaller than any one size; with TotalSizeAppend this fixes the sum on every listing |
| Upload.TotalSizeAppend | src/app/api/upload/route.ts:55 | The sum over a listing is the sum of the sums over any split of it |
| Upload.Admit | src/app/api/upload/route.ts:29-63 | A body that is not form data gives 500; no file gives 400 "No file provided"; over 104857600 bytes gives 400 "too large"; an empty file gives 400 "empty"; a failed listing gives 500; otherwise it admits exactly a file that fits under the limit together with the listed sizes, and a 413 reports 0 ≤ remaining < size |
| Upload.QuotaGate | src/app/api/upload/route.ts:40-63 | Oversized gives 400, empty gives 400, and otherwise 413 with max(0, limit − used) exactly when used + size > limit |
| Upload.Handle | src/app/api/upload/route.ts:29-104 | A refusal is answered as Admit decided it; an admitted file whose bucket write fails gives 500; 200 exactly when the file is admitted and stored, with the payload's size, the derived key, the declared type or `application/octet-stream`, the public and embed links of that key and the upload time: the record `uploadFile` returns |
| Upload.Post | src/app/api/upload/route.ts:22-104 | 401 before anything else when the session is not live, otherwise the handler's answer; only lazy eviction touches the table |
| R2.AppUrl | src/lib/r2.ts:148 | The application URL is never empty |
| R2.HexDigit | src/lib/r2.ts:149 | The upper-case hexadecimal digit whose value is the given number below 16 |
| R2.Escape | src/lib/r2.ts:149 | One byte becomes `%` and two upper-case hex digits whose value, high digit first, is the byte |
| R2.PercentEncode | src/lib/r2.ts:149 | Three characters per byte; the characters 3k to 3k+2 are the escape of byte k |
| R2.PercentEncodeIsUriText | src/lib/r2.ts:149 | Escaped bytes are well-formed encoded URI text |
| R2.UriTextAppend | src/lib/r2.ts:149 | Well-formed encoded URI text stays well-formed when joined |
| R2.EncodeUriComponent | src/lib/r2.ts:149 | The output holds only unreserved characters and complete `%XY` escapes, is no shorter than the input, and equals an input made of unreserved characters |
| R2.EncodeUriAppend | src/lib/r2.ts:149 | Encoding works character by character: it distributes over concatenation |
| R2.EncodeUriChar | src/lib/r2.ts:149 | One character is kept when it is unreserved and otherwise becomes the escapes of its UTF-8 bytes |
| R2.GetPublicUrl | src/lib/r2.ts:143-145 | The public URL followed by `/` and then the key |
| R2.GetEmbedUrl | src/lib/r2.ts:147-150 | The application URL, then `/view/`, then exactly the `encodeURIComponent` encoding of the key |
| R2.EmbedUrlOfPlainKey | src/lib/r2.ts:147-150 | A key of unreserved characters appears verbatim in the embed link |
| R2.UploadFile | src/lib/r2.ts:42-70 | The record echoes key and content type, takes its size from the payload and carries the public and embed links |
| R2.PagesRead | src/lib/r2.ts:106-109 | The loop reads pages up to and including the first one that is not truncated or has no token, and no further |
| R2.InsertNewestFirst | src/lib/r2.ts:111-115 | Inserting into a newest-first list keeps it newest first and adds exactly the one item |
| R2.SortNewestFirst | src/lib/r2.ts:111-115 | The result is newest first (a missing time counts as 0) and a permutation of the input |
| R2.ListFiles | src/lib/r2.ts:79-118 | The result is the sort of the items collected from exactly the pages the loop reads |
| R2.ListItem | src/lib/r2.ts:94-101 | An object with a key gives an item with that non-empty key, the object's size or 0, its time, and the public and embed links of the key |
| R2.Items | src/lib/r2.ts:92-104 | At most one item per object, each with a non-empty key |
| R2.Collected | src/lib/r2.ts:84-104 | Every item the loop accumulates has a non-empty key |
| R2.PushItems | src/lib/r2.ts:92-104 | Appends one item per keyed object of the page, in page order |
| R2.CollectedIsKeyedObjects | src/lib/r2.ts:84-104 | Collecting page by page equals keeping the keyed objects of all pages in order |
| R2.ItemsAreKeyedObjects | src/lib/r2.ts:93-101 | Every item comes from an object with that non-empty key, with the object's size (or 0) and time and the derived links; every object with a key has its item in the listing; none is dropped when all objects have keys |
| R2.KeyedObjectsKept | src/lib/r2.ts:93-101 | No object with a key is lost: its item is among the items of the objects it belongs to |
| R2.InsertKeepsTimeOrder | src/lib/r2.ts:111-115 | Insertion keeps the relative order of items with equal times |
| R2.SortIsStable | src/lib/r2.ts:111-115 | Items with equal times keep the order in which the pages listed them |
| R2.ListFilesSortedPermutation | src/lib/r2.ts:79-118 | The listing is newest first and a permutation of the keyed objects of the pages read |
| R2.GetFileMetadata | src/lib/r2.ts:120-141 | null exactly on failure; otherwise the headers, with `application/octet-stream` for a missing content type and 0 for a missing length |
| R2.GetMediaCategory | src/lib/r2.ts:152-159 | `other` exactly when the content type, as given and without lower-casing, starts with none of `image/`, `video/`, `audio/`; any other answer is the one types.ts gives, and on a lower-case content type the two agree |
| R2.MediaCategoryIsCaseSensitive | src/lib/r2.ts:152-159 | `IMAGE/PNG` is other to `getMediaCategory` but an image to types.ts |
| FilesRoute.FileName | src/app/api/files/route.ts:30-32 | The key's text after its last `/`, or the whole key without one; contains no `/` and ends the key |
| FilesRoute.ReportedContentType | src/app/api/files/route.ts:24-25 | The HEAD response's content type, or `application/octet-stream` when the request failed or named none |
| FilesRoute.Enrich | src/app/api/files/route.ts:23-39 | Key, size, date and links are copied from the listing; the name is the key's last segment; the content type is the reported one and the media type is decided from it and the key |
| FilesRoute.MissingContentTypeFallsBackToExtension | src/app/api/files/route.ts:24-26 | Without a content type the entry reports `application/octet-stream` and the extension's media type |
| FilesRoute.ContentTypeDecides | src/app/api/files/route.ts:26 | A content type with a media top-level type decides the media type |
| FilesRoute.Mapped | src/app/api/files/route.ts:23 | Same length; entry k is the callback applied to item k |
| FilesRoute.EnrichBatch | src/app/api/files/route.ts:21-47 | One batch yields the enrichment of each of its files, in order |
| FilesRoute.EnrichListing | src/app/api/files/route.ts:17-48 | Batches of 20 together enrich every listed file exactly once, in listing order |
| FilesRoute.Get | src/app/api/files/route.ts:8-60 | 200 exactly when the session is live and the listing succeeds; 401 before listing when the session is not live, 500 when listing fails, otherwise every listed file enriched in order with `count` equal to their number |

## Left out

- Cryptography. SHA-256 is a function the store is given, and the 32 random token bytes are a parameter. The constant-time behaviour of `timingSafeEqual` cannot be stated.
- Auth.SessionStore.CreateSession: reads the clock once, while the source calls `Date.now()` again for each swept entry. A later reading could also remove entries that expire during the sweep.
- The `globalThis` store that survives hot module reloading, and the cookie attributes `httpOnly`, `secure`, `sameSite` and `path`.
- Text.Lower: lower-cases ASCII letters only, while `toLowerCase` also maps other scripts. This changes two results. First, `getExtension` returns the extension lower-cased and the custom-name key appends it: for a file `a.Ä` and custom name `x` the source makes the key `<id>_x.ä`, the model `<id>_x.Ä`. Second, some non-ASCII letters lower-case to ASCII ones: the Kelvin sign U+212A becomes `k`, so `clip.m\u212Av` is a video in the source (its extension lower-cases to `.mkv`) but other in the model.
- Strings are sequences of Unicode scalar values. Lone UTF-16 surrogates are not modelled, and neither are their encoding by `Buffer.from` and `encodeURIComponent` (the latter throws on them).
- The regular expression `[^a-zA-Z0-9._-]` works on UTF-16 code units. A character outside the Basic Multilingual Plane becomes two underscores in the source, which then collapse; the model makes one underscore of it. The collapse gives the same result either way.
- `R2_BUCKET_LIMIT` is read with `parseInt`, with 10 GiB when it is unset. The model takes the limit as an integer parameter. A value that does not parse gives NaN in the source, and then no upload is ever refused for lack of space.
- The 413 message formats megabytes with `toFixed`; only the remaining byte count is modelled. `formatFileSize` is floating point and is left out.
- The S3 client itself: PUT, HEAD, LIST and the `deleteFile` wrapper. Their answers are inputs, as are `uuidv4`, `toISOString` and the environment.
- Concurrency. The HEAD requests of a batch are treated as sequential, and two concurrent uploads can both pass the quota check in the source.
- FilesRoute.EnrichListing: the source drops rejected callbacks, but none can reject, because `getFileMetadata` catches every error. The model proves every file is kept.
- R2.SortNewestFirst: `Array.prototype.sort` sorts in place. The model sorts a sequence value stably, as that sort is specified to.
- A form whose `file` entry is text rather than a file, or whose `customName` is a file, is not modelled. In the source an empty text `file` is falsy and gets 400 "No file provided". Any other text `file` has no `size`, so it passes the size, empty-file and quota tests and fails with 500 when its name is read. A file given as `customName` is first used after the size, empty-file and quota tests, so those can still answer 400, 413 or (for a failed listing) 500 before it fails with 500.
- A `lastModified` date is a number of milliseconds; its ISO formatting in the listing is not modelled.
- `src/app/api/files/[key]/route.ts`, the view page, `src/app/page.tsx` and `src/app/layout.tsx` are not part of this model.
