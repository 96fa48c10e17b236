# Recent gists: titles, truncation and list items

A Raycast extension lists the signed-in user's GitHub gists. This model covers
the part of it that decides what is shown:

- the gist records the GraphQL list query returns, and how the query's
  `edges { node }` list is turned into gists (module `Gists`, `gists.dfy`);
- the display title of a gist: its description, or else its first file's name
  (`Gists.NameForGist`);
- the "recent gists" screens as plain data, not JSX (module `RecentGists`,
  `view_recent_gists.dfy`):
  - a row per gist. A single-file gist opens its file directly. Any other gist
    shows "<n> files" and opens a file list;
  - the Public/Private accessory;
  - the file list, with ids `<gist id>-<index>`;
  - the detail screen of one file. Its markdown is a code block holding the
    file's text cut to 10 000 characters, followed by a "(truncated)" marker
    when something was cut. Its navigation title falls back to the file name.
- the two JavaScript string operations these rely on: `substring(0, end)` with
  its clamping, and the decimal text a template literal makes of a
  non-negative integer (module `JsString`, `js_string.dfy`).

Text is `seq<char>`. JavaScript measures and cuts strings in UTF-16 code
units. Here each `char` is an abstract stand-in for one code unit, not that
unit's own value: a Dafny `char` is a Unicode scalar value, so a lone surrogate
has no `char` of its own. Only lengths, prefixes and equality of text matter
here, and the abstraction keeps all three. A missing gist description is the
empty string, because the title rule only tests the description for
truthiness. An optional navigation title is an `Option`, because the source
tests it with `typeof … === "undefined"`, so an empty title is still used.
`nameForGist` fails at run time when the description is empty and there are no
files. `Gists.HasTitle` states exactly the opposite condition, and every member
that needs a title requires it.

Each detail's markdown has a partner: `RecentGists.ParseDetailMarkdown` reads
it back. `RecentGists.DetailMarkdown` is proved to round-trip through it, so
the shown text and the truncation flag are both recoverable from the markdown.
The decimal rendering of numbers is proved to round-trip through
`JsString.DecimalValue`. That step is what makes file-item ids distinct.

## Model

| member | source | states |
|---|---|---|
| `Gists.NameForGist` | src/gists.ts:28 | a non-empty description is the title; otherwise the first file's name is, which then must exist; the title is always one of the two |
| `Gists.NameForGistNonEmpty` | src/gists.ts:28 | the title is non-empty whenever the first file's name is |
| `Gists.NameForGistDependsOnDescriptionAndFirstFile` | src/gists.ts:28 | two gists with the same description, and the same first file name when the description is empty, get the same title |
| `Gists.Nodes` | src/gists.ts:70 | flattening the edges gives one gist per edge; gist i is edge i's node |
| `Gists.NodesAppend` | src/gists.ts:70 | flattening a concatenation of edge lists concatenates the flattened lists, so order is kept across any split |
| `JsString.SubstringTo` | src/view-recent-gists.tsx:24 | `substring(0, end)` is a prefix of the string whose length is `end` clamped into `[0, length]` |
| `JsString.NatToString` | src/view-recent-gists.tsx:145 | the text of a non-negative integer is non-empty and all decimal digits; a text starting with '0' is exactly "0", the text of 0 |
| `JsString.DecimalValueOfNatToString` | src/view-recent-gists.tsx:145 | reading the decimal text back gives the number |
| `JsString.NatToStringInjective` | src/view-recent-gists.tsx:58 | distinct numbers have distinct decimal texts |
| `RecentGists.TruncateText` | src/view-recent-gists.tsx:20-26 | the flag is set exactly when the text is longer than the limit; the result is a prefix of the text; its length is the text's when not cut, else the limit clamped at 0 |
| `RecentGists.TruncateTextShort` | src/view-recent-gists.tsx:21-22 | text within the limit comes back unchanged with the flag false |
| `RecentGists.TruncateTextLong` | src/view-recent-gists.tsx:23-24 | text over a non-negative limit comes back as exactly its first `limit` characters with the flag true |
| `RecentGists.TruncateTextLength` | src/view-recent-gists.tsx:20-26 | for a non-negative limit the shown length is min(length, limit), so never above the limit |
| `RecentGists.TruncateTextFlagMeansCut` | src/view-recent-gists.tsx:20-26 | for a non-negative limit the flag is true exactly when the shown text differs from the input |
| `RecentGists.TruncateTextIdempotent` | src/view-recent-gists.tsx:20-26 | truncating a truncated text with the same limit returns it unchanged and unflagged |
| `RecentGists.TruncateTextNested` | src/view-recent-gists.tsx:20-26 | truncating to a wider limit and then a narrower one equals truncating to the narrower one |
| `RecentGists.TruncateTextNegativeLimit` | src/view-recent-gists.tsx:23-24 | a negative limit shows nothing and flags even empty text, as `substring` clamps the end to 0 |
| `RecentGists.DetailMarkdown` | src/view-recent-gists.tsx:33-35 | the markdown opens with a fence carrying the language; parsing it back yields exactly the truncated text and its flag; its length is bounded by the fences, the limit and the marker |
| `RecentGists.DetailMarkdownParses` | src/view-recent-gists.tsx:35 | a fence, a text, a closing fence and the marker only when flagged are read back as that text and flag |
| `RecentGists.DetailMarkdownMarkerIffTruncated` | src/view-recent-gists.tsx:35 | the markdown ends with the closing fence and "(truncated)" marker exactly when the file is longer than 10 000 characters |
| `RecentGists.DetailNavigationTitle` | src/view-recent-gists.tsx:40 | a supplied title, even an empty one, is used; without one the file's name is |
| `RecentGists.GistFileDetail` | src/view-recent-gists.tsx:28-40 | the detail markdown, fenced with the language's name, reads back as the file's truncated text and flag; its title follows the fallback rule |
| `RecentGists.GistFileDetailAsWritten` | src/view-recent-gists.tsx:35 | as written, the fence's info string is "[object Object]" for every file |
| `RecentGists.AsWrittenFenceDropsLanguage` | src/view-recent-gists.tsx:35 | for every language name other than "[object Object]" and without a line break, the as-written markdown is not a code block of that language; the corrected one is |
| `RecentGists.OpenFencesDiffer` | src/view-recent-gists.tsx:35 | text that opens with the fence of one language name does not open with the fence of a different one, when neither name holds a line break |
| `RecentGists.VisibilityLabel` | src/view-recent-gists.tsx:102 | the accessory is "Public" exactly for public gists and "Private" exactly for the others |
| `RecentGists.FileItemId` | src/view-recent-gists.tsx:58 | an item id is the gist id, a dash, then exactly the decimal text of the file index, which reads back as that index |
| `RecentGists.FileItemIdInjective` | src/view-recent-gists.tsx:58 | within one gist, equal item ids mean equal file indices |
| `RecentGists.FileItemIdUnique` | src/view-recent-gists.tsx:58 | for gist ids without a dash, equal item ids mean the same gist and the same index |
| `RecentGists.GistFileListItem` | src/view-recent-gists.tsx:51-64 | a file row has the indexed id and the file's name as title, and opens the file's detail, titled by the file's name; that detail is the corrected one of the finding below |
| `RecentGists.GistFileList` | src/view-recent-gists.tsx:8-18 | the file list is titled by the gist's title and has one row per file, in file order, row i built from file i and index i |
| `RecentGists.GistFileListIdsDistinct` | src/view-recent-gists.tsx:13-14 | no two rows of one gist's file list share an id |
| `RecentGists.GistListItem` | src/view-recent-gists.tsx:92-149 | a row has the gist's id, its title and its visibility label; it opens the file directly exactly when there is one file, titled by the gist's title and without a subtitle; otherwise it has subtitle "<n> files" and opens the file list; the detail it opens is the corrected one of the finding below |
| `RecentGists.GistListItemNavigationTitles` | src/view-recent-gists.tsx:92-149 | a single-file row's detail and a multi-file row's list both carry the row's title; each file of the list opens under its own name |
| `RecentGists.GistListItemSubtitleCountsFiles` | src/view-recent-gists.tsx:145 | a multi-file row's subtitle is a decimal number followed by " files", and that number is the file count |

## Left out

- `withGists` and `loadGists` (src/gists.ts:30-110) are left out. They set React state (`useState`, `useEffect`), send the Octokit GraphQL request and show and hide toasts on timers. That is network I/O and asynchronous UI state. Only the edges-to-gists mapping inside them is modelled, as `Gists.Nodes` over the edge list; the `response.viewer.gists` envelope around it is plain field access.
- src/create-gist.tsx is left out. It is clipboard access, toasts, a HUD and form state around a network call. It also uses `createGist` and `GistScope`, which the shown src/gists.ts does not define.
- src/utils.ts is left out: it only reads a host preference.
- `Command` (src/view-recent-gists.tsx:174-189) is left out: the loading flag, the empty-view placeholder and the list of rows are all rendered by the host framework.
- The actions of each row and detail are left out: copy content, copy URL, open in browser, refresh, and their keyboard shortcuts. The icons and the React `key` props are left out too. All of these are presentation delegated to the host.
- `RecentGists.TruncateText` takes an integer limit. JavaScript numbers that are fractional or NaN are not modelled. The only caller passes 10 000.
- `RecentGists.GistFileDetail` drops the gist argument of `GistFileDetail`, which only feeds the copy-URL action.

## Findings

| source | as written | input that shows it | evidently intended | confidence | as-written member | corrected member |
|---|---|---|---|---|---|---|
| src/view-recent-gists.tsx:35 | the code fence interpolates `file.language`, a `{ name }` record (src/gists.ts:7-9, 15), so the info string is always "[object Object]" | any file whose language name is not "[object Object]", such as "TypeScript": its detail's code fence carries "[object Object]" and not the name | the fence carries `file.language.name`, so the host can highlight the code | not executed; high for plain JSON objects | `RecentGists.GistFileDetailAsWritten`, with `RecentGists.AsWrittenFenceDropsLanguage` | `RecentGists.GistFileDetail` |

The file rows (`RecentGists.GistFileListItem`, src/view-recent-gists.tsx:64)
and the single-file gist rows (`RecentGists.GistListItem`,
src/view-recent-gists.tsx:107) open the corrected `RecentGists.GistFileDetail`,
whose fence carries the language's name. They therefore model the program as
intended, not as written. `RecentGists.GistFileDetailAsWritten` covers the
as-written fence.
