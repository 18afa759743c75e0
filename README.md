# Junior placement portal: the client-side logic, modelled in Dafny

The portal is a React front end over a Supabase store. Students browse company and
general preparation resources, preview them, bookmark them and ask questions in a
forum. Mentors add companies, upload resources and post announcements. Nearly all of
the behaviour worth stating runs in the browser, on rows that have already been
fetched. This project models that logic and proves what it promises.

- **General Resources folder browser** (`GeneralResources`). Resources with no
  company carry an optional `/`-separated `folder_path`.
  - `organizeFolders` groups them by exact path. An unset or empty path goes to
    `"root"`.
  - `getFolderHierarchy` registers every prefix of every path, drops duplicates
    and sorts.
  - The page lists the immediate sub-folders of the folder being viewed and the
    resources filed directly in it.
  - Each folder card shows the last segment of the path and the direct member count.
- **Resource preview** (`ResourceViewer`). It picks a URL: the external link first,
  then a signed URL for the stored file. It shows a YouTube embed, a video player or
  a plain frame, following the two regular expressions the dialog applies to the URL.
- **Forum** (`Forum`).
  - It collects the distinct post and reply authors.
  - It builds a user-to-role map in which the last row for a user wins.
  - It shows a "(Mentor)" or "(Student)" badge.
  - It guards new questions and replies with trim-and-empty checks. On success it
    clears only the draft that was sent.
- **Company page** (`CompanyDetail`). It has round tabs, resource icons and the
  download counter. It also keeps a set of bookmarked ids, which a toggle updates
  only when the store accepts the change.
- **Company list** (`Companies`). It filters companies by a case-insensitive name
  substring. It keeps the query and the `search` parameter of the address in step.
- **Mentor dashboard** (`MentorDashboard`).
  - Access control.
  - The form guards for companies, uploads and announcements.
  - The storage key built from the file extension and the clock.
  - Which form fields are reset once the store accepts a row.

The shared modules model the JavaScript primitives the pages use:

- `JsString`: `split` and `join` on one character, without normalisation. It also has
  `trim` (ECMAScript white space and line terminators), ASCII `toLowerCase`,
  `includes`, `startsWith` and decimal rendering of a number.
- `JsArray`: `filter` and the default `sort()`. The sort is an insertion sort under
  lexicographic order on characters.
- `Schema`: the rows and enums of the store.
- `Wrappers`: an `Option` type.

Every store call is a parameter whose outcome is given: fetched rows as `Option`
values, the success of an insert, update, delete or upload as a `bool`, and the URL
signer as a function. The clock reading `Date.now()` is a `nat` parameter.

Where the page keeps state and handlers change it, the model is a class. The classes
are `ResourceViewer.Viewer`, `Forum.ForumPage`, `CompanyDetail.CompanyPage` and
`MentorDashboard.Dashboard`. Each handler is a method with `modifies this`. Its
contract states the whole new state and the request it sends to the store.

The loops of the source are methods with loop invariants:

- `OrganizeFolders`: a `forEach` that pushes onto a map.
- `FolderHierarchy`: nested `forEach`s that add to a `Set`.
- `CollectAuthorIds`: nested loops over posts and replies.
- `BuildRoleMap`.

Each of these is proved equal to an independent reference definition, and the
properties are proved about that definition.

One consequence of the upload handler shows up in the lemma
`MentorDashboard.BlankLinkShadowsFile`. The link guard trims, but the stored link is
the untrimmed text. So a link made only of blanks is refused when there is no file.
With a file it is accepted and stored as a non-empty link. The preview dialog then
prefers that blank link to the uploaded file. This is a consequence of the code as
written, not an error the code evidently did not intend, so it is not listed as a
finding.

## Model

| member | source | states |
|---|---|---|
| Schema.RoundName | src/integrations/supabase/types.ts:372 | No round type is named `"all"`, so no round collides with the tab that shows everything. |
| Schema.RoundNameInjective | src/integrations/supabase/types.ts:372 | Different round types have different stored names. |
| GeneralResources.GroupKey | src/pages/GeneralResources.tsx:47 | The key is never empty. It is `"root"` exactly when the path is unset or empty, or literally `"root"`. Otherwise it is the path itself. |
| GeneralResources.OrganizeFolders | src/pages/GeneralResources.tsx:43-55 | The map the loop builds equals the reference grouping `Groups`: one entry per key in use, holding that key's resources in input order. |
| GeneralResources.GroupedIsGroups | src/pages/GeneralResources.tsx:46-52 | Filing the rows one at a time, creating a group on first use, gives exactly the reference grouping. |
| GeneralResources.GroupingPartitions | src/pages/GeneralResources.tsx:46-52 | Every resource is in the group of its key. Every group holds only resources of its key, is non-empty, and is an order-preserving subsequence of the input. |
| GeneralResources.GroupSizesAddUp | src/pages/GeneralResources.tsx:46-52 | Over any duplicate-free list of keys that covers every resource, the group sizes add up to the number of resources, so none is lost or counted twice. |
| GeneralResources.FolderMapAsWritten | src/pages/GeneralResources.tsx:44-52 | The grouping as written, on an object literal whose inherited property names read as truthy. Its failure case is stated by `PrototypeFolderThrows`. |
| GeneralResources.PrototypeFolderThrows | src/pages/GeneralResources.tsx:48-51 | A single resource whose key is an inherited name such as `"constructor"` makes the as-written grouping throw. The intended grouping gives one group holding it. |
| GeneralResources.AsWrittenAgreesElsewhere | src/pages/GeneralResources.tsx:43-55 | When no key is an inherited name, the as-written grouping equals the intended one. |
| GeneralResources.FolderHierarchy | src/pages/GeneralResources.tsx:120-131 | The result is strictly sorted, so it is sorted with no duplicates. A folder is in it exactly when it is `parts.slice(0, k).join("/")` for some k >= 1 of some row with a truthy path. |
| GeneralResources.PrefixSegments | src/pages/GeneralResources.tsx:124-126 | Splitting a registered prefix gives back the first k segments of its path. |
| GeneralResources.HierarchyPrefixClosed | src/pages/GeneralResources.tsx:125-127 | The hierarchy is prefix-closed: every leading run of segments of a registered folder is registered. |
| GeneralResources.OwnFolderRegistered | src/pages/GeneralResources.tsx:122-127 | The full path of every row with a truthy path is a registered folder. |
| GeneralResources.ChildDepth | src/pages/GeneralResources.tsx:134 | Below the prefix `p + "/"`, having one segment more than `p` is the same as having no further slash. |
| GeneralResources.RootFolders | src/pages/GeneralResources.tsx:133-135 | With no current path, the listing is exactly the registered folders that have one segment. |
| GeneralResources.ChildFolders | src/pages/GeneralResources.tsx:133-135 | Under a non-empty path p, the listing is exactly the registered folders of the form `p + "/" + segment`. |
| GeneralResources.CurrentFolders | src/pages/GeneralResources.tsx:133-135 | The listing holds exactly the hierarchy entries that pass the listing test, and it keeps their order. |
| GeneralResources.CurrentFoldersKeepOrder | src/pages/GeneralResources.tsx:133-135 | The listing is a subsequence of the hierarchy, so it stays strictly sorted. |
| GeneralResources.ListedChildHasRegisteredParent | src/pages/GeneralResources.tsx:125-135 | The folder that a listed child sits in is itself a registered folder. |
| GeneralResources.CurrentResources | src/pages/GeneralResources.tsx:137 | Reading own entries only, the view is the group of the current path, or of `"root"` at the top. It is empty when that folder has no group. |
| GeneralResources.CurrentResourcesAreDirect | src/pages/GeneralResources.tsx:137 | The resources shown are the direct members of the current path, or of `"root"` at the top, in input order. None comes from a sub-folder, and the list is empty when nothing is filed there. |
| GeneralResources.FolderCardOf | src/pages/GeneralResources.tsx:181-184 | The card keeps the folder path. Its name has no slash and ends the path. Its count is the size of the folder's own group, or 0 when it has none. |
| GeneralResources.FolderCardCountsDirectMembers | src/pages/GeneralResources.tsx:184 | A card counts the direct members of its folder. A folder that holds only sub-folders shows 0. |
| GeneralResources.FolderCardName | src/pages/GeneralResources.tsx:181 | The card name has no slash. It is the folder itself at the top level, and the segment after `p + "/"` under p. |
| GeneralResources.ReadFolder | src/pages/GeneralResources.tsx:137 | A property read on the folder object yields the own list exactly when the key is an own entry. It yields undefined exactly when the key is neither an own entry nor a name inherited from `Object.prototype`. |
| GeneralResources.ResourceAreaAsWritten | src/pages/GeneralResources.tsx:137-197 | The resource area as written. A list is shown only when it is non-empty and is the own group. The render throws exactly when the key is not an own entry but names an inherited method with a positive `length`. |
| GeneralResources.CardCountAsWritten | src/pages/GeneralResources.tsx:184 | A card count as written. It is the own group's size for an own entry, and 0 for an unknown name. For an inherited method it is that method's `length`. |
| GeneralResources.LookupsAgreeElsewhere | src/pages/GeneralResources.tsx:137-197 | For an own entry, or a key that is no inherited name, both as-written reads equal the own-entry reads. |
| GeneralResources.PrototypePrefixFolderMisread | src/pages/GeneralResources.tsx:120-197 | One resource filed under `"constructor/notes"` groups without error. The prefix `"constructor"` is registered and listed at the top. Its card shows 1, though no resource is filed there, and opening it makes the render throw. The own-entry reads give 0 and an empty view. |
| ResourceViewer.PreviewSource | src/components/ResourceViewer.tsx:16-29 | The URL is never empty. No resource gives no URL. A truthy external link is chosen over the file. With neither a link nor a truthy signed URL there is none; otherwise the URL is the signed URL of the file path. |
| ResourceViewer.Viewer.Load | src/components/ResourceViewer.tsx:15-30 | The `url` state becomes the URL chosen for the resource. |
| ResourceViewer.IsVideoFile | src/components/ResourceViewer.tsx:38 | A URL that passes the video test contains a dot and is at least four characters long. |
| ResourceViewer.VideoFileIff | src/components/ResourceViewer.tsx:38 | The video-file test holds exactly when the URL ends in `.mp4`, `.webm` or `.ogg`, in any letter case, or has such an ending just before a `?` that is followed by a single-line tail. |
| ResourceViewer.VideoFileWithQuery | src/components/ResourceViewer.tsx:38 | Adding a single-line query string to a video file URL keeps it a video file. |
| ResourceViewer.NotVideoFile | src/components/ResourceViewer.tsx:38 | A URL whose every `.` is followed by `b` or `B` never passes the video test. |
| ResourceViewer.MarkersExclusive | src/components/ResourceViewer.tsx:41 | The watch marker and the short marker never both match at the same index. |
| ResourceViewer.MarkerLengthSpec | src/components/ResourceViewer.tsx:41 | The marker length at an index names the alternative that occurs there, case-insensitively, and is 0 when neither does. |
| ResourceViewer.IdRun | src/components/ResourceViewer.tsx:41 | The greedy `[\w-]+` run: it has only id characters and stops at the end of the URL or at a non-id character. |
| ResourceViewer.IdAt | src/components/ResourceViewer.tsx:41 | A captured id is non-empty and has only id characters. |
| ResourceViewer.YouTubeIdFromSpec | src/components/ResourceViewer.tsx:41 | The search finds nothing exactly when no match starts at or after the start. Otherwise it returns the id of the leftmost match. |
| ResourceViewer.YouTubeId | src/components/ResourceViewer.tsx:41 | There is no id exactly when no match starts anywhere in the URL. Otherwise the id is the capture of the leftmost match. |
| ResourceViewer.LinkId | src/components/ResourceViewer.tsx:41 | In a URL made of a prefix without `y`/`Y`, a watch or short marker, an id run and a tail that does not continue the run, the id found is that run. |
| ResourceViewer.TitleOr | src/components/ResourceViewer.tsx:47-65 | The title is the resource's own title or the fallback. It is empty only when the fallback is. |
| ResourceViewer.RenderContent | src/components/ResourceViewer.tsx:34-69 | No URL gives "no preview". A video file is never embedded from YouTube. An embed appears exactly when the URL has a YouTube id and is no video file, and its source is the embed prefix plus the id. A player appears exactly when there is no embed and the type is video or the URL is a video file. Otherwise a frame shows the unchanged URL. |
| ResourceViewer.ShortLinkEmbedded | src/components/ResourceViewer.tsx:41-43 | An https short link is embedded with its id, whatever the resource type. |
| Forum.CollectAuthorIds | src/pages/Forum.tsx:134-140 | The ids have no duplicates. They are exactly the truthy authors of the posts and of their replies, where missing replies count as none. |
| Forum.RoleMap | src/pages/Forum.tsx:147-150 | The map has a key exactly for each user id that appears in some role row. |
| Forum.RoleMapLastWins | src/pages/Forum.tsx:147-150 | The map has an entry for exactly the users with a row. When several rows share a user, the last one's role wins. |
| Forum.BuildRoleMap | src/pages/Forum.tsx:147-150 | The loop builds the reference role map. |
| Forum.RoleLabel | src/pages/Forum.tsx:159-163 | The badge is "(Mentor)" or "(Student)". It is "(Mentor)" exactly when the id is truthy and its entry is mentor. |
| Schema.IsMentorOrAdmin | src/pages/Forum.tsx:165 | The staff test holds exactly when a role is known and it is not junior. |
| Forum.AdminBadgedAsStudent | src/pages/Forum.tsx:159-165 | A user without a mentor entry, admins included, is badged as a student. Admins and mentors may moderate; juniors and absent roles may not. |
| Forum.CheckPost | src/pages/Forum.tsx:194-206 | The user must be signed in first. A post is accepted exactly when signed in and both the trimmed title and the trimmed content are non-empty. It then carries the trimmed values. |
| Forum.TrimmedInput | src/pages/Forum.tsx:198-204 | A non-empty trim result starts and ends with non-white-space and occurs in the typed text. |
| Forum.AcceptedPostIsTrimmed | src/pages/Forum.tsx:198-204 | An accepted title and content are trimmed and taken from what was typed. A blank title or blank content is refused. |
| Forum.DraftFor | src/pages/Forum.tsx:222 | A post without a draft reads as `""`; otherwise the draft is the one stored for that post. |
| Forum.CheckReply | src/pages/Forum.tsx:218-226 | The user must be signed in first. A reply is accepted exactly when the trimmed draft, with a missing draft read as `""`, is non-empty. It carries that trimmed text. |
| Forum.AcceptedReplyIsTrimmed | src/pages/Forum.tsx:222-226 | An accepted reply is trimmed and occurs in the draft. A missing or blank draft is refused. |
| Forum.ForumPage.constructor | src/pages/Forum.tsx:31-37 | The page starts with no posts, no roles, empty drafts and no role of its own. |
| Forum.ForumPage.FetchPosts | src/pages/Forum.tsx:116-157 | The posts become the fetched rows, or none when the query failed. The roles are looked up exactly when some author exists, and then become the role map of the returned rows; otherwise they are empty. The forms are unchanged. |
| Forum.ForumPage.FetchUserRole | src/pages/Forum.tsx:106-114 | A signed-in user's role becomes the fetched role, or none. Signed out, nothing changes. |
| Forum.ForumPage.CreatePost | src/pages/Forum.tsx:193-215 | A row is sent exactly when the post is accepted, with the trimmed values and the user as author. The two fields are cleared only when the store accepts it. Nothing else changes. |
| Forum.ForumPage.PostReply | src/pages/Forum.tsx:217-238 | A row is sent exactly when the reply is accepted. When the store accepts it, only that post's draft is cleared; every other post's draft keeps its value. |
| CompanyDetail.FilteredResources | src/pages/CompanyDetail.tsx:152-154 | `"all"` yields the whole list. Any other tab keeps exactly the resources of that round. The result keeps input order. |
| CompanyDetail.RoundTabsPartition | src/pages/CompanyDetail.tsx:152-156 | The tab of a round shows exactly the resources of that round type. |
| CompanyDetail.ResourceIcon | src/pages/CompanyDetail.tsx:141-150 | Video gets the video icon and link gets the link icon, each exactly. Every other type gets the file icon. |
| CompanyDetail.NextDownloadCount | src/pages/CompanyDetail.tsx:113 | A missing count becomes 1. A stored count grows by one. |
| CompanyDetail.DownloadCountPositive | src/pages/CompanyDetail.tsx:113 | For a missing or non-negative count, the new count is at least 1 and equals `(count or 0) + 1`. |
| CompanyDetail.BookmarkedIds | src/pages/CompanyDetail.tsx:59 | The set holds exactly the resource ids of the fetched rows. |
| CompanyDetail.Toggled | src/pages/CompanyDetail.tsx:83-96 | The toggled id leaves the set if it was in and joins it otherwise. Every other id keeps its membership. |
| CompanyDetail.ToggleTwice | src/pages/CompanyDetail.tsx:83-96 | Two accepted toggles of the same id restore the set. |
| CompanyDetail.CompanyPage.constructor | src/pages/CompanyDetail.tsx:19-22 | The page starts with no resources, no bookmarks and the "all" tab. |
| CompanyDetail.CompanyPage.FetchCompanyData | src/pages/CompanyDetail.tsx:52-63 | The resources become the fetched rows, or none. The bookmarks become the fetched ids only for a signed-in user. |
| CompanyDetail.CompanyPage.ToggleBookmark | src/pages/CompanyDetail.tsx:67-100 | Signed out, nothing is requested and nothing changes. Otherwise it sends a delete for a bookmarked id and an insert for any other. The set is toggled exactly when the store accepts; on a store error it is unchanged. |
| Companies.FilteredCompanies | src/pages/Companies.tsx:35-37 | A company is kept exactly when its lower-cased name contains the lower-cased query. The result is an order-preserving subsequence of the fetched list. |
| Companies.EmptyQueryKeepsAll | src/pages/Companies.tsx:35-37 | An empty query keeps every company. |
| Companies.CaseInsensitive | src/pages/Companies.tsx:36 | Queries that differ only in ASCII letter case list the same companies. |
| Companies.LongerQueryNarrows | src/pages/Companies.tsx:35-37 | A query that contains another one lists a subsequence of what the shorter query lists. |
| Companies.QueryFromParams | src/pages/Companies.tsx:14-21 | The query is the `search` parameter when present, and `""` when it is absent. |
| Companies.ParamsOnSubmit | src/pages/Companies.tsx:58-66 | A submit clears the parameter exactly when the query is empty, and otherwise writes the query. |
| Companies.ParamsRoundTrip | src/pages/Companies.tsx:14-66 | Reading back a submitted query gives the query. Re-submitting a read parameter gives the parameter back, except that an empty `search=` is dropped. |
| MentorDashboard.ShouldRedirect | src/pages/MentorDashboard.tsx:41-48 | The visitor is sent away exactly when the session is known and data is not to be fetched. |
| MentorDashboard.ShouldFetch | src/pages/MentorDashboard.tsx:41-48 | Data is fetched exactly for a signed-in user whose role is known and is not junior. |
| MentorDashboard.AccessExclusive | src/pages/MentorDashboard.tsx:40-51 | Once the session is known, a visitor is either redirected or served, never both. Nobody is redirected while it loads. Data is fetched exactly for a signed-in mentor or admin. |
| MentorDashboard.FileExtension | src/pages/MentorDashboard.tsx:103 | The extension has no dot and ends the name. Without a dot it is the whole name. |
| MentorDashboard.FileExtensionSpec | src/pages/MentorDashboard.tsx:103 | With a dot, the extension is shorter than the name, and the name is some text, a dot and the extension. |
| MentorDashboard.ExtensionAfterLastDot | src/pages/MentorDashboard.tsx:103 | The extension of `front + "." + ext` is `ext` whenever `ext` has no dot. |
| MentorDashboard.StorageKey | src/pages/MentorDashboard.tsx:103-104 | The key has the same extension as the file. |
| MentorDashboard.StorageKeySpec | src/pages/MentorDashboard.tsx:103-104 | For a user id and a file name without `/`, the key splits on `/` into the user id and `timestamp.ext`. |
| MentorDashboard.CompanyNameOk | src/pages/MentorDashboard.tsx:66 | The company guard passes exactly when the name has a character that is not white space. |
| MentorDashboard.CheckUpload | src/pages/MentorDashboard.tsx:86-94 | The required-fields guard comes first: it fails exactly when no company is selected or the trimmed title is empty. The upload is ready exactly when those hold and there is a file or a non-blank link. |
| MentorDashboard.StoredLink | src/pages/MentorDashboard.tsx:122 | An empty link is stored as null. Any other link is stored as typed. |
| MentorDashboard.BlankLinkShadowsFile | src/pages/MentorDashboard.tsx:91-122 | A link of blanks alone is refused without a file but accepted beside a file. The preview then shows the blank link instead of the file. |
| MentorDashboard.ClearedUpload | src/pages/MentorDashboard.tsx:131-135 | The reset keeps the resource type and round type. |
| MentorDashboard.AnnouncementOk | src/pages/MentorDashboard.tsx:157 | The announcement guard passes exactly when both the title and the content have a character that is not white space. |
| MentorDashboard.Dashboard.constructor | src/pages/MentorDashboard.tsx:22-38 | The forms start empty, with type pdf, round aptitude, no file, not pinned and not uploading. |
| MentorDashboard.Dashboard.AddCompany | src/pages/MentorDashboard.tsx:65-83 | A row is sent exactly when the trimmed name is non-empty, and it holds the name and description as typed. The form is cleared only when the store accepts it. The other forms are unchanged. |
| MentorDashboard.Dashboard.UploadResource | src/pages/MentorDashboard.tsx:85-143 | A file goes up under the storage key exactly when the guards pass and a file is present. A row is sent exactly when the guards pass and any upload succeeded. The row has the file path (null without a file) and the stored link. The busy flag ends false whenever the guards passed. On an accepted insert, company, title, description, link and file are reset and type and round keep their values; otherwise the form is unchanged. |
| MentorDashboard.Dashboard.PostAnnouncement | src/pages/MentorDashboard.tsx:156-177 | A row is sent exactly when neither the trimmed title nor the trimmed content is empty, and it holds the values as typed. On success the form becomes empty and unpinned. |
| JsString.SplitJoin | src/pages/GeneralResources.tsx:126 | Joining segments that have no separator and splitting again gives the segments back. |
| JsString.JoinSplit | src/pages/GeneralResources.tsx:124-126 | Splitting and joining on the same character gives the text back. |
| JsString.SplitSingleIff | src/pages/GeneralResources.tsx:134 | A text splits into one segment exactly when it has no separator. |
| JsString.SplitConcat | src/pages/GeneralResources.tsx:134 | Splitting `a + sep + b` gives the segments of `a` followed by those of `b`. |
| JsString.TrimSpec | src/pages/Forum.tsx:198 | The trim is empty exactly when the text is all white space. Otherwise it ends in a non-white-space character. It always occurs in the text. |
| JsString.LowerAsciiKeepsIncludes | src/pages/Companies.tsx:36 | Lower-casing preserves containment. |
| JsString.Decimal | src/pages/MentorDashboard.tsx:104 | A number renders as a non-empty run of digits. |
| JsArray.FilterMembership | src/pages/CompanyDetail.tsx:154 | A filter keeps exactly the members that pass the test. |
| JsArray.FilterIsSubsequence | src/pages/Companies.tsx:35-37 | A filter keeps input order. |
| JsArray.SortSorts | src/pages/GeneralResources.tsx:130 | The default sort orders the list and is a permutation of it. |
| JsArray.SortDistinct | src/pages/GeneralResources.tsx:130 | Sorting a duplicate-free list gives a strictly sorted list with the same members. |

## Left out

- Store I/O. Every Supabase select, insert, update, delete, storage upload and URL
  signing is an input to the model (rows as `Option`, outcomes as `bool`, the signer
  as a function). Row order from `.order(...)` and the `.in("user_id", ids)` filter of
  the role query are whatever the given rows are.
- The refetch after a success. `fetchPosts()` and `fetchData()` run after a write;
  in the model that is a separate call of `FetchPosts`, or outside it.
- The forum's realtime channel subscriptions (src/pages/Forum.tsx:44-103). They only
  deliver change notifications asynchronously.
- Concurrency. React runs handlers asynchronously, and the state updater
  `setBookmarks(prev => ...)` applies to the latest state. Each handler is modelled
  as one atomic step on the current state.
- Loading flags, toasts, navigation and rendering markup, apart from the classification
  of the preview. The access effect's `navigate("/")` is the `ShouldRedirect` predicate.
- The delete handlers (`handleDeletePost`, `handleDeleteReply`,
  `handleDeleteResource`). Each is a single store delete followed by a refetch.
- The download and view handlers of the General Resources page, and the analytics
  inserts and link opening of `handleDownload` on the company page. These are store
  writes and `window.open`. Only the new count value (src/pages/CompanyDetail.tsx:113)
  is modelled.
- `handleBookmark` on the General Resources page. It is one insert whose error code
  picks a toast, and it keeps no local state.
- Unicode. The model's lower-casing folds only ASCII letters; JavaScript's
  `toLowerCase` does full Unicode mapping. The default `sort()` compares
  UTF-16 code units, and the model compares Dafny characters; the two agree on
  characters of the Basic Multilingual Plane.
- The clock. `Date.now()` is the parameter `now`.
- Cumulative folder counts and an analytics top-N leaderboard. Neither exists in the
  code; a folder card counts direct members only.
- CurrentResourcesAreDirect: states the own-entry view the page evidently intends. As
  written, a current path that names an inherited `Object.prototype` method makes the
  render throw instead; that behaviour is the finding for lines 137-197, stated by
  `ResourceAreaAsWritten` and `PrototypePrefixFolderMisread`.
- FolderCardCountsDirectMembers: states the own-entry count the page evidently intends.
  As written, a folder named after an inherited method shows that method's `length`;
  that behaviour is the finding for line 184, stated by `CardCountAsWritten` and
  `PrototypePrefixFolderMisread`.
- The other pages and helpers are not part of this model: authentication,
  administration, profile, the landing page, the navigation bar, routing, the
  verification e-mail function and the class-name utilities. They are store CRUD,
  library validation or rendering.

## Findings

| source | as written | input that shows it | evidently intended | confidence | as-written member | corrected member |
|---|---|---|---|---|---|---|
| src/pages/GeneralResources.tsx:44-51 | `folderMap` is the object literal `{}`, and `if (!folderMap[path])` tests it before `folderMap[path].push(resource)`. A path equal to a name inherited from `Object.prototype` reads as truthy, so no list is created, and `push` is called on a function or on the prototype, which throws a TypeError. | One general resource with `folder_path` equal to `"constructor"` (or `"toString"`, `"__proto__"`, ...). | Every path gets its own group, like any other folder name. | not executed | GeneralResources.FolderMapAsWritten (shown by GeneralResources.PrototypeFolderThrows) | GeneralResources.OrganizeFolders (equal to GeneralResources.Groups, and to the as-written version elsewhere by GeneralResources.AsWrittenAgreesElsewhere) |
| src/pages/GeneralResources.tsx:137-197 | `folders[currentPath \|\| "root"] \|\| []` reads the object literal through its prototype. A registered prefix such as `"constructor"` has no own entry, so the view becomes the function `Object`, whose `length` 1 passes `currentResources.length > 0`, and `currentResources.map` throws during render. | One general resource with `folder_path` `"constructor/notes"`; open the listed folder `"constructor"`. | A folder with no own group shows the empty state. | not executed | GeneralResources.ResourceAreaAsWritten (shown by GeneralResources.PrototypePrefixFolderMisread) | GeneralResources.CurrentResources (with GeneralResources.CurrentResourcesAreDirect) |
| src/pages/GeneralResources.tsx:184 | `folders[folderPath]?.length \|\| 0` reads an inherited method for a prefix folder named after it, and shows its parameter count. | The same resource: the card of `"constructor"` reads "1 resources" though none is filed there. | The card counts the folder's own group and shows 0. | not executed | GeneralResources.CardCountAsWritten (shown by GeneralResources.PrototypePrefixFolderMisread) | GeneralResources.FolderCardOf (with GeneralResources.FolderCardCountsDirectMembers) |
