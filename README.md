# NextCloud WebDAV client — verified model

`NCWebDavClient` is a small PHP wrapper that talks to a NextCloud server over
WebDAV through the sabre/dav client library. This project models its own
logic in Dafny and proves what that logic does:

- **Addressing.** `initClient` stores the user, password, domain and debug
  flag as given. The user's file space is `remote.php/dav/files/<user>/` (the
  base path) and every request is resolved against `<domain>/<base path>`
  (the base URI). Nothing is normalised: a domain that already ends in `/`
  gives `//` in the base URI.
- **Folder listing.** `getFolderContents` asks the transport for a depth-1
  PROPFIND of a folder and goes through the resource paths of the answer in
  order. It keeps every path except those that reduce to exactly `//` once
  every occurrence of `<base path><folder>` is removed from them with PHP's
  `str_replace`. That test is how the folder's own entry is dropped, for a
  folder name that is non-empty and does not end in `/`.
- **File download.** `sendFile` GETs a file. On a status other than 200 it
  writes `404\n` and stops. On 200 it writes six headers in a fixed order and
  then the body. The headers are `Content-Type`, `Content-Disposition:
  attachment; filename=<basename>`, `Expires: 0`, `Cache-Control:
  must-revalidate`, `Pragma: public` and `Content-Length`.

The project has four modules:

- `PhpStrings` (`php_strings.dfy`) models the two PHP builtins the decisions
  rest on: `str_replace` and `basename`. `str_replace` is tied to a reference
  definition built from splitting and joining.
- `FolderListing` (`folder_listing.dfy`) gives the specification of the
  listing filter (`FolderEntries`) and its properties.
- `FileDownload` (`file_download.dfy`) gives the specification of the
  download output (`SendFileOutput`), a reader that recovers the download from
  that output (`ReadDownload`), and the output stream of a PHP request as a
  class with an append-only event log (`OutputLog`).
- `NcWebDavClient` (`nc_webdav_client.dfy`) holds the client class. Its
  fields are the four settings, and its methods run the listing loop and the
  download against what the transport answered.

The WebDAV transport is not modelled. A PROPFIND answer enters as the
sequence of its keys, in the order the transport yields them. A GET answer
enters as a record: an integer status, a map from lower-case header name to
its list of values, and the body.

Some properties hold of the code as written and are worth knowing:

- The self-entry test drops the keys `/<base path><folder>/` and
  `<base path><folder>//`. These spell the folder's own entry only when the
  folder name is non-empty and does not end in `/`. Every direct child
  `/<base path><folder>/<name>` is kept (`FolderChildListed`,
  `ListingOfFolder`).
- For the user's root folder (an empty folder name) and for a folder name
  given with a trailing `/`, the folder's own key is `/<base path><folder>`.
  The test does not match it, so the folder is listed as one of its own
  entries (`RootOrSlashFolderListsItself`, `RootFolderListsItself`).

## Model

| member | source | states |
|---|---|---|
| `NcWebDavClient.Client.InitClient` | nextcloud-webdav-client.php:51-58 | the user, password, domain and debug flag are stored exactly as given, with no check on any of them; the debug flag is off when not given |
| `NcWebDavClient.Client.GetBasePath` | nextcloud-webdav-client.php:64-66 | the base path starts with `remote.php/dav/files/`, then holds the user name, then ends in `/`, and has exactly that length |
| `NcWebDavClient.BasePathDeterminesUser` | nextcloud-webdav-client.php:64-66 | two clients have the same base path if and only if they have the same user |
| `NcWebDavClient.Client.GetBaseUri` | nextcloud-webdav-client.php:72-74 | the base URI is the domain unchanged, one `/`, then the base path |
| `NcWebDavClient.BaseUriKeepsTrailingSlash` | nextcloud-webdav-client.php:72-74 | a domain ending in `/` produces `//` where the domain meets the base path |
| `NcWebDavClient.BaseUriOfAlice` | nextcloud-webdav-client.php:72-74 | user `alice` on `https://cloud.example.com` has base URI `https://cloud.example.com/remote.php/dav/files/alice/` |
| `NcWebDavClient.Client.GetFolderContents` | nextcloud-webdav-client.php:152-163 | the loop returns `FolderEntries` of the answer; the result is an order-preserving subsequence of the keys; a key is in the result if and only if it is in the answer and `str_replace` does not reduce it to `//`; distinct keys give a list without repeats |
| `NcWebDavClient.Client.SendFile` | nextcloud-webdav-client.php:106-130 | the output log grows by exactly `SendFileOutput` of the path and the GET answer, and nothing else is written |
| `NcWebDavClient.FolderNeedleShape` | nextcloud-webdav-client.php:156 | the string removed from each key starts with `r` and holds a `/` after its first character, for every user and folder |
| `NcWebDavClient.FolderSelfEntryLeftOut` | nextcloud-webdav-client.php:156-158 | the keys `/<base path><folder>/` and `<base path><folder>//` are both dropped; they are the folder's own key when the folder name is non-empty and does not end in `/` |
| `NcWebDavClient.OnlySelfEntryGivesEmptyListing` | nextcloud-webdav-client.php:152-163 | an answer holding only the key `/<base path><folder>/` gives an empty list; that key is the folder's own entry when the folder name is non-empty and does not end in `/` |
| `NcWebDavClient.FolderChildListed` | nextcloud-webdav-client.php:156-160 | a direct child `/<base path><folder>/<name>` with a non-empty name without `/` is kept |
| `NcWebDavClient.RootOrSlashFolderListsItself` | nextcloud-webdav-client.php:156-160 | for the root folder (empty name) or a folder name ending in `/`, the folder's own key `/<base path><folder>` is kept and listed |
| `NcWebDavClient.RootFolderListsItself` | nextcloud-webdav-client.php:152-163 | listing the user's root keeps the root's own key `/remote.php/dav/files/<user>/` |
| `NcWebDavClient.ListingOfFolder` | nextcloud-webdav-client.php:152-163 | a self key (either spelling) followed by the folder's direct children is listed as exactly the children, in the answer's order |
| `FolderListing.IsSelfEntry` | nextcloud-webdav-client.php:156 | the test passes only keys of at least two characters; with an empty needle, which removes nothing, only `//` passes |
| `FolderListing.SelfEntryWithoutNeedle` | nextcloud-webdav-client.php:156 | a key in which the needle does not occur is a self-entry if and only if it is `//` |
| `FolderListing.FolderEntries` | nextcloud-webdav-client.php:152-163 | the listing is never longer than the answer |
| `FolderListing.FolderEntriesCount` | nextcloud-webdav-client.php:156-160 | a self-entry occurs in the listing zero times; any other key occurs exactly as often as in the answer |
| `FolderListing.FolderEntriesMembership` | nextcloud-webdav-client.php:156-160 | a key is listed if and only if the answer holds it and it is not a self-entry |
| `FolderListing.FolderEntriesSubsequence` | nextcloud-webdav-client.php:154-161 | the listing is a subsequence of the answer: the transport's order is kept |
| `FolderListing.FolderEntriesDistinct` | nextcloud-webdav-client.php:154-161 | distinct keys give a listing with no repeated entry |
| `FolderListing.FolderEntriesAppend` | nextcloud-webdav-client.php:154-161 | filtering a concatenated answer filters each part and concatenates the results |
| `FolderListing.FolderEntriesIdempotent` | nextcloud-webdav-client.php:152-163 | filtering a listing a second time gives the same listing |
| `FolderListing.FolderEntriesOnlySelf` | nextcloud-webdav-client.php:156-158 | an answer made only of self-entries gives an empty listing |
| `FolderListing.FolderEntriesNoSelf` | nextcloud-webdav-client.php:160 | an answer with no self-entry is listed unchanged |
| `FolderListing.SelfKeysAreSelfEntries` | nextcloud-webdav-client.php:156 | removing the needle from `/needle/` or from `needle//` leaves exactly `//` |
| `FolderListing.ChildKeyIsKept` | nextcloud-webdav-client.php:156 | removing the needle from `/needle/name` leaves `//name`, which is not `//` |
| `FolderListing.BareChildKeyIsKept` | nextcloud-webdav-client.php:156 | removing the needle from `needle/name` leaves `/name`, which is not `//` |
| `FolderListing.TrailingSlashSelfKeyIsKept` | nextcloud-webdav-client.php:156 | removing the needle from `/needle` leaves `/`, so this key is not recognised as a self-entry |
| `PhpStrings.StrReplace` | nextcloud-webdav-client.php:156 | removing occurrences with an empty replacement never makes the subject longer |
| `PhpStrings.StrReplaceIsJoinOfSplit` | nextcloud-webdav-client.php:156 | `str_replace` equals splitting the subject at the left-to-right, non-overlapping occurrences of the search string and joining the pieces with the replacement |
| `PhpStrings.SplitOnPiecesAvoidSep` | nextcloud-webdav-client.php:156 | no piece left between the cuts contains the search string, so every occurrence was replaced |
| `PhpStrings.SplitJoinRoundTrip` | nextcloud-webdav-client.php:156 | splitting at the search string and joining with it gives the subject back |
| `PhpStrings.StrReplaceSelf` | nextcloud-webdav-client.php:156 | replacing the search string with itself leaves the subject unchanged |
| `PhpStrings.StrReplaceAbsent` | nextcloud-webdav-client.php:156 | a subject that does not contain the search string is returned unchanged |
| `PhpStrings.StrReplaceLeading` | nextcloud-webdav-client.php:156 | an occurrence at the start is replaced, and the scan continues right after it |
| `PhpStrings.StrReplaceSkip` | nextcloud-webdav-client.php:156 | a character that cannot start an occurrence is copied, and the scan moves on by one |
| `PhpStrings.Basename` | nextcloud-webdav-client.php:120 | the basename never contains `/` |
| `PhpStrings.StripTrailingSlashes` | nextcloud-webdav-client.php:120 | the result is a prefix of the path that does not end in `/` |
| `PhpStrings.LastComponentIsSuffix` | nextcloud-webdav-client.php:120 | the last component is a suffix of the path, and it is either the whole path or preceded by `/` |
| `PhpStrings.BasenameOfChild` | nextcloud-webdav-client.php:120 | the basename of `dir/name`, and of a bare `name`, is `name` when `name` is non-empty and has no `/` |
| `FileDownload.FirstHeaderValue` | nextcloud-webdav-client.php:117 | the first listed value of the header when there is one; otherwise the empty string, as PHP null concatenates |
| `FileDownload.HeaderLine` | nextcloud-webdav-client.php:117-128 | a header line is the field name, then `: `, then the value, with nothing added or lost |
| `FileDownload.DownloadHeaders` | nextcloud-webdav-client.php:117-128 | six header lines; the i-th, read under the i-th download header name, gives the i-th download value |
| `FileDownload.OutputLog.constructor` | nextcloud-webdav-client.php:104-106 | a request's output starts empty |
| `FileDownload.SendFileOutput` | nextcloud-webdav-client.php:106-130 | a status other than 200 writes exactly `404\n` and no header or body; status 200 writes the six download headers and then the body as the seventh and last event |
| `FileDownload.SendFileDelivers` | nextcloud-webdav-client.php:117-130 | reading the output back gives, on 200, the first content type, the basename of the path, the first content length and the body, all copied verbatim; any other status gives no download |
| `FileDownload.SendFileHeaderOrder` | nextcloud-webdav-client.php:117-128 | on 200 the header field names written are exactly `Content-Type`, `Content-Disposition`, `Expires`, `Cache-Control`, `Pragma`, `Content-Length`, in that order; otherwise no header is written |
| `FileDownload.DownloadHeaderFieldNames` | nextcloud-webdav-client.php:117-128 | the six download header lines carry those six field names, in that order |
| `FileDownload.FieldNameOfLine` | nextcloud-webdav-client.php:117-128 | a header line `name: value` gives back `name` as its field name when `name` has no colon |
| `FileDownload.HeaderValueOfLine` | nextcloud-webdav-client.php:117-128 | a header line `name: value` read back under `name` gives `value` |
| `FileDownload.OutputLog.WriteHeader` | nextcloud-webdav-client.php:117 | `header()` appends one header line to the output and changes nothing else |
| `FileDownload.OutputLog.WriteText` | nextcloud-webdav-client.php:130 | `echo` appends its text to the output and changes nothing else |

## Left out

- The sabre/dav transport is not modelled. This covers building the
  `Sabre\DAV\Client` in `getClient` (nextcloud-webdav-client.php:80-94), the
  GET request (line 104) and the PROPFIND request (lines 142-146). HTTP,
  authentication and the parsing of the PROPFIND XML answer are the
  library's work. Their results enter the model as inputs. As a consequence,
  the password and the base URI are stored and computed but never used by a
  modelled operation.
- The properties requested by the PROPFIND (display name, last modified,
  content type) are not modelled. The code never reads them: only the keys
  of the answer reach the listing.
- The `(int)` cast of the status code is not modelled. The transport already
  gives an integer status, so the model's status is an `int`.
- `Content-Length` is not parsed. The code copies the first header value as
  text, and so does the model.
- `$contents['headers'][name][0]` on a missing header, or on an empty list of
  values, is PHP null, which prints as the empty string. The model writes the
  empty string in that case. The PHP notice that goes with it is not
  modelled.
- `PhpStrings.Basename` follows PHP's `basename` on POSIX paths: trailing
  slashes are stripped and the last component is returned. Locale-dependent
  multibyte handling and the optional suffix argument are not modelled.
- The debug `var_dump` output (nextcloud-webdav-client.php:111-115, 148-150)
  is diagnostic only and is not modelled. The debug flag is stored and
  nothing else.
- PHP `header()` and `echo` are modelled as events appended to a log. How the
  web server turns them into an HTTP response is not modelled.
- PHP arrays turn numeric-string keys into integers. Resource paths are never
  numeric strings, so PROPFIND keys are modelled as strings.
- example.php is the CGI entry point that reads `$_GET`, calls `exit` and
  prints the listing. It has no logic of its own and is not modelled.
