# make-nextjs-supabase in Dafny

This project models the application core of a Next.js and Supabase task app. The app has accounts,
users, memberships, invites and tasks. Each page, store and controller file below stands for one file of the app's core; `js.dfy`, `json.dfy` and `query.dfy` model the JavaScript and JSON semantics those files share.

- `local_store.dfy`: the client-side record table. It mirrors `localStorage` under the
  `convo-make-app::` namespace and publishes set and delete events.
- `store.dfy`: the remote table store. It reads with a match, a range and an order, updates, inserts,
  deletes and publishes change events.
- `util.dfy`: `getTableName`.
- `app.dfy`: the application controller. It has the `_updateId` token rule that lets only the newest
  auth event or account switch publish. It builds the user, account and membership rows made at first
  sign-in and resolves a signed-in user into the shown user info. It also records the last access of a
  membership.
- `file_store.dfy`: the memoising cache of public file URLs.
- `polyfills.dfy`: the `isSpace` predicate and its install-if-absent rule.
- `schema.dfy`: the zod row and insert schemas as validity predicates, and the `TaskStatus` and
  `UserRole` enums.
- `json.dfy` and `query.dfy`: JSON values, records and their serialisation, and parsed query strings.
- `js.dfy`: the JavaScript string and number primitives the pages rely on. These are `trim`,
  `toLowerCase`, `startsWith`, `slice`, the truncating `%` and `encodeURIComponent`.
- `dashboard.dfy`, `register.dfy`, `sign_in.dfy`, `profile.dfy`, `account.dfy`, `landing.dfy`,
  `sign_in_required.dfy`: the rules of the pages and the sign-in guard, as pure functions, except the `forEach` of the profile page, which is the method `Profile.AccountsById` with a loop. These cover:
  - slugs, markdown stripping, excerpts and the markdown export;
  - task counts, the visible-task filter, lifecycle patches and the buttons offered;
  - form validation and what is submitted;
  - redirect priority and return-path sanitising;
  - file extensions and storage keys, and account-id de-duplication;
  - id truncation, member lists and invites;
  - the carousel index arithmetic and its autoplay rule;
  - the `next` parameter of the sign-in links.

Classes model the objects whose fields the app updates in place:
- `LocalStorage.LocalStore` has `data`, `loaded`, the durable storage map and the event log.
- `Store.Store` has `loaded`, the remote tables and the event log.
- `App.AppCtrl` has `userInfo`, `updateId`, the published values and the backend rows.
- `FileStore.FileStore` has the URL map.
- `Polyfills.Window` has the `isSpace` slot.

Effects outside the process become parameters. These are clocks, ids, the public URL function, URL
parsing, sorting and date formatting.

## Model

| member | source | states |
|---|---|---|
| LocalStorage.TableKey | lib/local-store.ts:76-78 | the table key is the namespace, `::`, the table name and `::` |
| LocalStorage.ItemKey | lib/local-store.ts:73-75 | an item key is its table key followed by the id, so it lies under the table prefix |
| LocalStorage.IdInTableOfItemKey | lib/local-store.ts:73-78 | the id read back from under the table prefix of an item key is the id it was built from |
| LocalStorage.ItemKeyInjective | lib/local-store.ts:73-75 | for table names without `:`, two equal item keys have the same table and the same id |
| LocalStorage.ItemKeyCollision | lib/local-store.ts:73-75 | with `::` in a table name, table `a` id `b::c` and table `a::b` id `c` share one key |
| LocalStorage.LoadedEntries | lib/local-store.ts:38-48 | loading keeps exactly the namespaced storage entries that parse, with their parsed values |
| LocalStorage.WithoutNamespace | lib/local-store.ts:57-70 | clearing storage keeps exactly the entries outside the namespace, unchanged |
| LocalStorage.EmptyMirrorsWithoutNamespace | lib/local-store.ts:52-71 | an empty table mirrors storage that holds no namespaced entry |
| LocalStorage.LocalStore.constructor | lib/local-store.ts:24-28 | a new store is not loaded, holds no data and has published no event |
| LocalStorage.LocalStore.Load | lib/local-store.ts:33-50 | with storage present, `data` becomes the loaded entries and `loaded` is set |
| LocalStorage.LocalStore.EnsureLoaded | lib/local-store.ts:86-92 | the first access loads when storage exists and leaves the visible contents unchanged |
| LocalStorage.LocalStore.GetItemAsync | lib/local-store.ts:86-92 | returns the value stored under the item key, or nothing; no state visible to callers changes |
| LocalStorage.LocalStore.SetItemAsync | lib/local-store.ts:101-124 | for an object it stores the value under the key, writes storage and publishes one set event with the previous value; any other value deletes the key, resolves to nothing and publishes a delete event; other keys are unchanged |
| LocalStorage.LocalStore.DeleteItemAsync | lib/local-store.ts:132-150 | returns the previous value, removes only that key from `data` and storage, and always publishes one delete event with no value |
| LocalStorage.LocalStore.SelectAsync | lib/local-store.ts:157-183 | returns the items exactly once each whose key lies under the table prefix and that the filter does not reject (an explicit `false` or a throw) |
| LocalStorage.LocalStore.ClearAsync | lib/local-store.ts:52-71 | leaves `data` empty and removes every namespaced storage entry, keeping the rest |
| LocalStorage.LocalStore.RemoveFromStorage | lib/local-store.ts:68-70 | removes exactly the listed keys from storage |
| LocalStorage.NamespaceKeys | lib/local-store.ts:60-67 | collects exactly the storage keys that start with the namespace |
| LocalStorage.SetThenGet | lib/local-store.ts:86-124 | after setting an object, getting the same table and id returns it |
| Store.Filter | lib/store.ts:58-73 | keeps exactly the rows the test accepts, never more rows than there were |
| Store.FilterHead | lib/store.ts:80-87 | filtering keeps storage order: the first kept row is the first row of the table that the test accepts |
| Store.Window | lib/store.ts:66 | the inclusive range `[from, to]`: empty when `to < from`, at most `to - from + 1` rows, each the row at its offset |
| Store.Single | lib/store.ts:48-49 | a single result exists exactly when one row comes back |
| Store.Merge | lib/store.ts:96-118 | an update keeps every column of the row and takes every column the patch sets |
| Store.ExecuteWithinRange | lib/store.ts:58-73 | a match query yields at most as many rows as its range holds |
| Store.Execute | lib/store.ts:66-71 | the remote's answer to a match query: the matching rows, sorted when an order is asked for, then the range window; its bound is ExecuteWithinRange |
| Store.LimitOf | lib/store.ts:63 | `options?.limit ?? 1000`; SelectMatchesAsync states the range it yields |
| Store.OffsetOf | lib/store.ts:64 | `options?.offset ?? 0`; SelectMatchesAsync states the range it yields |
| Store.UpdateRows | lib/store.ts:96-118 | update merges the patch into every row with the id and leaves the other rows alone |
| Store.InsertedRow | lib/store.ts:127-149 | the inserted row keeps the defined columns of the value and gets a generated id when it has none |
| Store.FirstMatch | lib/store.ts:80-87 | the first matching row exists exactly when some row matches; it matches, and no row before it in storage order matches |
| Store.Store.constructor | lib/store.ts:24-30 | a new store is not loaded and has published no event |
| Store.Store.Load | lib/store.ts:32-36 | loading only sets `loaded` |
| Store.Store.SelectFirstAsync | lib/store.ts:44-50 | returns the row with the id when exactly one comes back, otherwise nothing; no state changes |
| Store.Store.SelectMatchesAsync | lib/store.ts:58-73 | requests the range `[offset, offset + limit - 1]` (offset 0, limit 1000 by default), orders only when `orderBy` is given and ascends unless `orderByDesc`; at most `limit` rows return |
| Store.Store.SelectFirstMatchesAsync | lib/store.ts:80-87 | returns nothing exactly when no row matches; otherwise the first matching row in storage order: a row of the table that matches, with no matching row before it; no state visible to callers changes |
| Store.Store.UpdateAsync | lib/store.ts:96-118 | fails with `Unable to update item` and no event when no single row returns; otherwise returns the merged row and publishes one set event whose previous value is the patch given |
| Store.Store.InsertAsync | lib/store.ts:127-149 | fails with `Unable to insert item` when no row is inserted; otherwise appends the row and publishes one set event under the row's id |
| Store.Store.DeleteAsync | lib/store.ts:157-172 | removes the rows with the id, returns the deleted row when there is one, and always publishes one delete event |
| Util.GetTableName | lib/util.ts:6-8 | a string passes through; a type definition maps to its `sqlTable`, else its `name` |
| Util.GetTableNameIdempotent | lib/util.ts:6-8 | the table name of a table name is itself |
| App.DisplayName | lib/app.ts:119 | the metadata value when set, else the email text before the first `@`, else the fallback; never empty |
| App.NewUser | lib/app.ts:113-126 | a user row with the auth id, the email and a non-empty default name is made exactly when there is an email |
| App.NewAccount | lib/app.ts:148-159 | the default account takes the auth user's id and the `accountName`, else the email part, else `New Account`; none without an email |
| App.NewMembership | lib/app.ts:128-146 | the first membership is an admin one whose last access equals its creation time |
| App.StrLeqTotal | lib/app.ts:92 | the text order used for `last_accessed_at` is total |
| App.StrLeqTrans | lib/app.ts:92 | the text order used for `last_accessed_at` is transitive |
| App.Where | lib/app.ts:61-64 | `.eq` / `.match` on the membership table: exactly the rows that hold every given column value, never more rows than there were |
| App.WhereAppend | lib/app.ts:87-91 | a query over two row lists laid end to end selects from each, in order |
| App.WhereOne | lib/app.ts:61-64 | a query selects exactly one row precisely when exactly one position of the table satisfies it, and the selection is that row |
| App.MembershipsOf | lib/app.ts:87-91 | exactly the memberships of the user, selected with the generic membership query |
| App.Latest | lib/app.ts:87-95 | the most recently accessed membership: none only for no rows, else a row accessed no earlier than any other |
| App.LatestHead | lib/app.ts:87-95 | a head row accessed no earlier than the best of the rest is accessed no earlier than every row |
| App.LookupAccount | lib/app.ts:100-104 | the account with the id, exactly when there is one |
| App.SupUserToUser | lib/app.ts:81-111 | the user is the stored row when there is one, else the created row, which is added under the auth id; no info only without a stored user and without an email, and then nothing changes; the membership is the most recent of the user's memberships (Latest), else a new admin membership of a new personal account, both added; the role comes from the membership and the account is the looked-up account of its `account_id`; rows stay keyed by their ids |
| App.FirstSignInCreatesRows | lib/app.ts:81-159 | a first sign-in with an email adds exactly one user row, one personal account under the auth id and one admin membership, and the info shows those three |
| App.SupUserToUserIdempotent | lib/app.ts:81-111 | resolving the same auth user again yields the same info and leaves the backend as the first resolution made it, so no second account or membership is created |
| App.NoEmailNoUser | lib/app.ts:84-86 | an auth user with no stored row and no email resolves to no info and changes nothing |
| App.CurrentMembershipId | lib/app.ts:163 | the current membership id, present exactly when the info is loaded with a membership |
| App.LastAccessTarget | lib/app.ts:161-167 | the argument when set, else the current membership id; none exactly when neither is set |
| App.TouchMembership | lib/app.ts:168-171 | only the membership with the id gets the new access time |
| App.FindMembership | lib/app.ts:61-64 | `.single()` of the match: a membership exactly when one row has both the user and the account id, and then that row; zero or several matches give none |
| App.AppCtrl.constructor | lib/app.ts:17-21 | `userInfo` starts as loading (`null`), nothing is published and the token is 0 |
| App.AppCtrl.Publish | lib/app.ts:35-43 | the value becomes `userInfo` and is appended to what was published |
| App.AppCtrl.AuthStateChanged | lib/app.ts:28 | each auth event increments the token and takes the new value |
| App.AppCtrl.AuthTimerFired | lib/app.ts:29-44 | a stale token does nothing; no session publishes the guest value; a session publishes loading and starts the resolution |
| App.AppCtrl.CommitResolution | lib/app.ts:36-41 | a resolution publishes only while its token is current, then records the membership access |
| App.AppCtrl.SetLastMembershipAccess | lib/app.ts:161-173 | returns false and changes nothing when no membership id is known; otherwise touches that membership and returns true |
| App.AppCtrl.SwitchAccountBegin | lib/app.ts:53-70 | no signed-in user means no token and no change; otherwise the token is bumped first, and without a matching membership nothing else happens |
| App.AppCtrl.SwitchAccountComplete | lib/app.ts:71-78 | the resolved info is published only when the token is still current |
| App.LastAccessBackend | lib/app.ts:161-171 | the backend after `setLastMembershipAccessAsync()` with no argument: the current membership touched, if there is one; SwitchAccountBegin states its use |
| App.OnlyNewestAuthEventPublishes | lib/app.ts:28-44 | of two overlapping auth events only the second one's outcome is published |
| App.StaleResolutionIsDropped | lib/app.ts:30-43 | a resolution overtaken by a sign-out publishes nothing, so the guest value stays |
| FileStore.FileStore.constructor | lib/fileStore.ts:12 | the cache starts empty |
| FileStore.FileStore.GetUrlAsync | lib/fileStore.ts:18-29 | a non-empty cached URL is returned as is; otherwise the public URL is computed and cached; other paths are untouched, and the cached URL then equals the result |
| FileStore.FileStore.GetCachedUrl | lib/fileStore.ts:35-37 | the cached URL of the path, or nothing, without changing the cache |
| FileStore.LookupTwice | lib/fileStore.ts:18-29 | a second lookup returns the first non-empty URL |
| FileStore.EmptyEntryIsRecomputed | lib/fileStore.ts:19-20 | a cached empty string counts as a miss and is recomputed |
| Polyfills.IsSpaceIsAsciiWhitespace | lib/polyfills.ts:6 | `isSpace` holds exactly for the codes 0x20 and 0x09 to 0x0D |
| Polyfills.IsSpace | lib/polyfills.ts:5-7 | the installed `isSpace`; IsSpaceIsAsciiWhitespace states the codes it accepts |
| Polyfills.Installed | lib/polyfills.ts:4-7 | an existing handler is kept; an absent one is replaced by the polyfill |
| Polyfills.InstalledIdempotent | lib/polyfills.ts:4-7 | installing twice equals installing once, and a handler is always present afterwards |
| Polyfills.Window.constructor | lib/polyfills.ts:4 | a window starts with the given `isSpace` slot |
| Polyfills.AddPolyfills | lib/polyfills.ts:1-9 | without a window nothing changes; with one, only an absent `isSpace` is filled |
| Polyfills.AddPolyfillsTwice | lib/polyfills.ts:1-9 | calling it twice leaves the same window as calling it once |
| Json.Get | lib/store.ts:96-118 | a missing property reads as `undefined` |
| Json.Coalesce | pages/account.tsx:312-324 | `??`: the default for `undefined` or `null`, else the value |
| Json.Serialise | lib/store.ts:101 | JSON drops exactly the `undefined` properties and keeps the rest |
| Json.Normal | lib/local-store.ts:112-118 | the JSON round trip keeps objects objects |
| Json.NormalIdempotent | lib/local-store.ts:112-118 | serialising a serialised value changes nothing |
| Query.QueryGet | pages/register.tsx:51-59 | a missing query parameter reads as absent |
| Query.NonEmptyString | pages/sign-in.tsx:62-66 | a parameter counts exactly when it is one non-empty string |
| Schema.ParseTaskStatus | lib/schema/types-zod.ts:7 | TaskStatus accepts exactly `active`, `completed` and `archived` |
| Schema.TaskStatusRoundTrip | lib/schema/types-zod.ts:7 | every status parses back from its name |
| Schema.ParseUserRole | lib/schema/types-zod.ts:13 | UserRole accepts exactly `guest`, `default`, `manager` and `admin` |
| Schema.UserRoleRoundTrip | lib/schema/types-zod.ts:13 | every role parses back from its name |
| Schema.RequiredNames | lib/schema/types-zod.ts:20-180 | exactly the fields a schema requires |
| Schema.CoveredSchemaAccepts | lib/schema/types-zod.ts:20-180 | a record valid for a row schema is valid for an insert schema it covers |
| Schema.AccountRowIsInsert | lib/schema/types-zod.ts:20-42 | every valid account row is a valid account insert |
| Schema.AccountInviteRowIsInsert | lib/schema/types-zod.ts:49-81 | every valid invite row is a valid invite insert |
| Schema.AccountMembershipRowIsInsert | lib/schema/types-zod.ts:88-110 | every valid membership row is a valid membership insert |
| Schema.TaskRowIsInsert | lib/schema/types-zod.ts:117-149 | every valid task row is a valid task insert |
| Schema.UserRowIsInsert | lib/schema/types-zod.ts:156-180 | every valid user row is a valid user insert |
| Schema.TaskInsertMinimal | lib/schema/types-zod.ts:137-149 | a task insert needs `account_id` and `title` and nothing else |
| Schema.AccountInviteRequiredFields | lib/schema/types-zod.ts:49-61 | an invite requires exactly `id`, `created_at`, `account_id`, `code` and `role` |
| Schema.StatusAndRoleAreUnconstrained | lib/schema/types-zod.ts:56-125 | task `status` and membership and invite `role` accept any string, not only the enum values |
| Schema.UnknownStatusExample | lib/schema/types-zod.ts:7-13 | `blocked` is no status and `owner` is no role |
| Js.Trim | components/SignInRequired.tsx:31-33 | `trim`: removes exactly the leading and trailing whitespace, keeping the middle |
| Js.TrimEmptyIffAllWhitespace | components/SignInRequired.tsx:31-33 | the trimmed text is empty exactly when the text is all whitespace |
| Js.TrimIdempotent | pages/register.tsx:19-22 | trimming twice equals trimming once |
| Js.TrimTrimmed | pages/dashboard.tsx:42 | trimming text that neither starts nor ends with whitespace leaves it unchanged |
| Js.ToLower | pages/dashboard.tsx:26 | `toLowerCase` lowers each letter in place and keeps the length |
| Js.BeforeFirst | lib/app.ts:119 | `split(c)[0]`: the longest prefix without `c` |
| Js.Slice | pages/dashboard.tsx:30 | `slice`: `s[start..end]` for indices within the text, the rest of the text for an end past it, a suffix for a negative start, nothing when the derived end is not after the derived start, and otherwise the characters between the derived indices |
| Js.Rem | pages/index.tsx:77-79 | the JavaScript `%`: the sign of the dividend, magnitude below the divisor |
| Js.EncodeUriComponent | components/SignInRequired.tsx:25 | `encodeURIComponent`: never shorter than its input; every output character is unreserved, `%` or an upper-case hex digit, and every `%` is followed by two hex digits |
| Js.EscapedAppend | components/SignInRequired.tsx:25 | two texts whose every `%` starts a `%XX` escape keep that property when joined |
| Dashboard.Slugify | pages/dashboard.tsx:24-31 | the slug is 1 to 60 characters of `[a-z0-9-]`, without `--` and without a leading `-`; it is `task` when no letter or digit remains, and keeps one when there is one |
| Dashboard.SlugBody | pages/dashboard.tsx:25-29 | the text cut to 60: lowered, trimmed, hyphenated and stripped of edge hyphens; SlugBodyShaped and Slugify state its shape |
| Dashboard.SlugMayEndInHyphen | pages/dashboard.tsx:28-30 | the hyphen strip runs before the cut to 60, so a slug can end in `-` |
| Dashboard.SlugEndsInHyphenExample | pages/dashboard.tsx:24-31 | 59 letters, a hyphen and a letter give a 60-character slug that ends in `-` |
| Dashboard.SlugBodyOfSlug | pages/dashboard.tsx:24-29 | a non-empty text of letters, digits and single inner hyphens is its own slug body |
| Dashboard.StripHyphensOfEdges | pages/dashboard.tsx:29 | `replace(/^-+|-+$/g, "")` leaves a text alone that neither starts nor ends with `-` |
| Dashboard.ReplaceRunsFixed | pages/dashboard.tsx:28 | a text whose class characters are all the replacement and never adjacent is left as it is |
| Dashboard.SlugOfWord | pages/dashboard.tsx:24-31 | a word already of lower-case letters and digits is its own slug body |
| Dashboard.SlugOfEmpty | pages/dashboard.tsx:25 | an empty title slugs as `task` |
| Dashboard.StripHyphens | pages/dashboard.tsx:29 | removes exactly the leading and trailing hyphens |
| Dashboard.ReplaceRunsNoAdjacent | pages/dashboard.tsx:28 | after replacing runs of a class by one member, no two class characters are adjacent |
| Dashboard.ReplaceRuns | pages/dashboard.tsx:28 | `replace(/[class]+/g, rep)`: never longer than its input; ReplaceRunsNoAdjacent and ReplaceRunsVisible state what it leaves |
| Dashboard.PlainAfterReplacements | pages/dashboard.tsx:38-42 | after the token, whitespace and trim stages no markdown token and no whitespace run remains |
| Dashboard.StripMarkdown | pages/dashboard.tsx:33-43 | empty in, empty out; otherwise the result is trimmed, holds no whitespace run and none of `* _ ~ > # -`, and keeps every other non-whitespace character of the text, in order |
| Dashboard.ReplaceRunsVisible | pages/dashboard.tsx:40-41 | replacing runs of tokens or of whitespace by one space keeps every visible character, in order |
| Dashboard.TrimVisible | pages/dashboard.tsx:42 | trimming keeps every visible character, in order |
| Dashboard.StripStepsVisible | pages/dashboard.tsx:40-42 | the token, whitespace and trim stages together keep exactly the visible characters |
| Dashboard.ReplaceSpacesOfPlain | pages/dashboard.tsx:41 | text whose whitespace is already single spaces is left unchanged by the whitespace stage |
| Dashboard.StripMarkdownOfPlainText | pages/dashboard.tsx:33-43 | text that is already plain and trimmed comes back unchanged |
| Dashboard.Excerpt | pages/dashboard.tsx:45-49 | the stripped text when it fits in `maxLen`, else the cut `slice(0, maxLen - 1).trimEnd()` of it followed by `…`; never longer than `maxLen` |
| Dashboard.ExcerptCut | pages/dashboard.tsx:48 | `s.slice(0, n).trimEnd()`: a prefix of `s` of at most `n` characters, not ending in whitespace, after which only whitespace lies before position `n` |
| Dashboard.TextOr | pages/dashboard.tsx:52-63 | `v \|\| fallback` for a string property |
| Dashboard.StatusOf | pages/dashboard.tsx:55 | `task.status \|\| "active"`; CountTasks and BadgeLabel state its use |
| Dashboard.HeaderFront | pages/dashboard.tsx:52-57 | the header starts with the title line, a blank line and the status line |
| Dashboard.ExportContent | pages/dashboard.tsx:52-65 | the export starts with `# title`, a blank line and `Status: status`, and the description follows `---` on its own line |
| Dashboard.ExportContentAsWritten | pages/dashboard.tsx:52-65 | as written, the export is some header followed directly by `\n---` and the description, with no newline after the rule |
| Dashboard.ExportGluesBodyToRule | pages/dashboard.tsx:52-65 | as written, `filter(Boolean)` drops the blank lines, so the description comes right after `\n---` |
| Dashboard.ExportGlueExample | pages/dashboard.tsx:52-65 | an untitled task with description `Hi` exports as `# Untitled task`, `Status: active`, `---Hi` |
| Dashboard.CountTasks | pages/dashboard.tsx:100-106 | each count is the size of the status filter of the task list (`active` also takes an empty status); CountsWithinTotal states the bound |
| Dashboard.CountsWithinTotal | pages/dashboard.tsx:100-106 | the three counts add up to at most the number of tasks |
| Dashboard.VisibleTasks | pages/dashboard.tsx:108-118 | exactly the tasks in the chosen status; a blank query keeps them all, else a lower-case substring test on title or description with the untrimmed query |
| Dashboard.KeepAppend | pages/dashboard.tsx:108-118 | the filter keeps order: the tasks kept from two lists laid end to end are those kept from each, in order |
| Dashboard.NewTask | pages/dashboard.tsx:120-137 | a new task is a valid task row and insert, active, titled `New task`, with `created_at` equal to `updated_at` |
| Dashboard.UpdatedGet | lib/store.ts:96-118 | after an update a property the patch defines is the patch's, any other is the row's |
| Dashboard.CompleteUpdates | pages/dashboard.tsx:139-147 | completing sets the status and stamps `completed_at` and `updated_at` with the same time |
| Dashboard.CompletePatch | pages/dashboard.tsx:141-146 | the completion patch; CompleteUpdates states what it does to a row |
| Dashboard.ArchivePatch | pages/dashboard.tsx:162-167 | the archive patch; ArchiveKeepsCompletedAt states what it does to a row |
| Dashboard.ReopenPatchAsWritten | pages/dashboard.tsx:151-156 | the reopen patch as written, with `completed_at: undefined`; ReopenKeepsCompletedAt states its effect |
| Dashboard.UnarchivePatchAsWritten | pages/dashboard.tsx:173-178 | the unarchive patch as written, with `archived_at: undefined`; ReopenKeepsCompletedAt states its effect |
| Dashboard.ReopenPatch | pages/dashboard.tsx:149-158 | the corrected reopen patch with `completed_at: null`; ReopenClears states its effect |
| Dashboard.UnarchivePatch | pages/dashboard.tsx:171-180 | the corrected unarchive patch with `archived_at: null`; UnarchiveClears states its effect |
| Dashboard.ArchiveKeepsCompletedAt | pages/dashboard.tsx:160-169 | archiving sets the status and `archived_at` and leaves `completed_at` untouched |
| Dashboard.ReopenKeepsCompletedAt | pages/dashboard.tsx:149-180 | as written, reopening keeps `completed_at` and unarchiving keeps `archived_at`, because JSON drops `undefined` |
| Dashboard.ReopenClears | pages/dashboard.tsx:149-158 | reopening with `null` sets `active` and clears `completed_at` |
| Dashboard.UnarchiveClears | pages/dashboard.tsx:171-180 | unarchiving with `null` sets `active` and clears `archived_at` |
| Dashboard.BadgeLabel | pages/dashboard.tsx:354-355 | the badge reads `Completed` exactly for completed tasks and `Archived` exactly for archived ones |
| Dashboard.ActionsExclusive | pages/dashboard.tsx:368-399 | each task offers exactly one of Archive and Unarchive, and Complete only alongside Archive |
| Dashboard.CanComplete | pages/dashboard.tsx:368 | Complete is offered when the task is neither completed nor archived; ActionsExclusive and ActionsFollowStatus state the rule |
| Dashboard.CanArchive | pages/dashboard.tsx:379 | Archive is offered when the task is not archived |
| Dashboard.CanUnarchive | pages/dashboard.tsx:390 | Unarchive is offered when the task is archived |
| Dashboard.ActionsFollowStatus | pages/dashboard.tsx:368-399 | after completing, Complete is gone and Archive stays; after archiving, only Unarchive; after unarchiving, Complete is back |
| Register.LooseEmailIffParts | pages/register.tsx:22 | `\S+@\S+\.\S+` holds exactly for text made of three non-empty whitespace-free parts joined by `@` and `.` |
| Register.LooseEmail | pages/register.tsx:22 | the registration pattern on the trimmed email; LooseEmailIffParts states it as parts |
| Register.LooseEmailExamples | pages/register.tsx:22 | `a@b.c` passes; blanks and empty parts fail |
| Register.Validate | pages/register.tsx:17-32 | each of the four fields gets at most one message, present exactly when its check fails |
| Register.ValidatePasses | pages/register.tsx:17-32 | no errors exactly when the trimmed name and organisation are non-empty, the trimmed email matches and the password has 8 characters |
| Register.ValidateMessages | pages/register.tsx:20-30 | a blank email gets `Email is required.`; a short password gets the length message; eight spaces pass |
| Register.InviteCodeOf | pages/register.tsx:51-59 | the invite code is `inviteCode`, else `invite`, else `code`, whichever is truthy first |
| Register.SubmitRequest | pages/register.tsx:64-87 | sign-up runs only without errors and while not submitting, with the email trimmed and the names untrimmed |
| Register.SubmittedRequestsAreValid | pages/register.tsx:64-87 | what is sent has a matching trimmed email, a password of 8 characters and a non-blank name |
| SignIn.StrictEmailIffParts | pages/sign-in.tsx:14-17 | the pattern holds exactly for `a@b.c` with three non-empty parts free of whitespace and `@` |
| SignIn.IsValidEmail | pages/sign-in.tsx:14-17 | `isValidEmail`: the strict pattern on the trimmed email; StrictEmailIffParts states it as parts |
| SignIn.StrictIsLoose | pages/sign-in.tsx:14-17 | every address sign-in accepts passes registration, but `a@b@c.d` passes only registration |
| SignIn.SanitizeReturnPath | pages/sign-in.tsx:19-31 | no path without a candidate; for a candidate, a path is kept exactly when it resolves to a URL of the same origin whose pathname starts with `/`, and the kept path is that pathname, search and hash |
| SignIn.InvitePath | pages/sign-in.tsx:56-60 | `/accept-account-invite/` and the trimmed code, exactly when `inviteCode` is one non-blank string |
| SignIn.ReturnCandidate | pages/sign-in.tsx:62-66 | the first non-empty one of `redirect`, `next` and `returnTo`; none exactly when all are missing |
| SignIn.ReturnPath | pages/sign-in.tsx:62-68 | the sanitised return candidate: none without a candidate, and a kept path starts with `/` |
| SignIn.RedirectAfterSignIn | pages/sign-in.tsx:72-77 | the invite path, else the return path, else `/dashboard` |
| SignIn.InviteWins | pages/sign-in.tsx:56-77 | an invite in the query decides the redirect; without one a kept return path does; with neither the dashboard |
| SignIn.SubmitErrors | pages/sign-in.tsx:83-92 | a blank email gets `Email is required`, a non-blank invalid one `Enter a valid email`, an empty password `Password is required`; no message otherwise |
| SignIn.SignInRequest | pages/sign-in.tsx:83-99 | sign-in is called exactly without errors, with the email trimmed |
| SignIn.SignedInCta | pages/sign-in.tsx:128-132 | the link goes where a sign-in would redirect; it reads `Continue` exactly when a path is set |
| Profile.InitialForm | pages/profile.tsx:81-86 | the form starts from the user's name and email, or empty, and image paths, or null |
| Profile.Cancel | pages/profile.tsx:174-183 | cancel resets the form to the user's initial form |
| Profile.CancelDiscardsChanges | pages/profile.tsx:174-183 | after cancel there are no changes |
| Profile.ChangesAgainstInitial | pages/profile.tsx:276-283 | changes exist exactly when the trimmed names or either image path differ, with undefined read as null |
| Profile.HasChanges | pages/profile.tsx:276-283 | `hasChanges`; ChangesAgainstInitial, CancelDiscardsChanges and SaveLeavesNoChanges state it |
| Profile.NameError | pages/profile.tsx:142-149 | a blank name is an error, `Name is required` |
| Profile.Save | pages/profile.tsx:151-172 | saving aborts without a user, a form or a non-blank name; it writes the trimmed name and the two image paths |
| Profile.PatchRecord | pages/profile.tsx:158-163 | the patch holds exactly `name`, `profile_image_path` and `hero_image_path`, and survives JSON |
| Profile.Saved | pages/profile.tsx:156-163 | the saved user takes the patch's name and image paths |
| Profile.SaveLeavesNoChanges | pages/profile.tsx:151-172 | after a save there are no changes against the saved user |
| Profile.WithImage | pages/profile.tsx:214-252 | setting one image path changes only that path |
| Profile.RemoveImage | pages/profile.tsx:244-252 | remove sets only its own path to null |
| Profile.ImageUploaded | pages/profile.tsx:214-242 | an upload sets its own path to the new key and does nothing without a key or a form |
| Profile.RemoveIsChange | pages/profile.tsx:244-252 | removing an image counts as a change exactly when the user had one |
| Profile.AfterLast | pages/profile.tsx:189 | `split(c).pop()`: the longest suffix without `c` |
| Profile.FileExt | pages/profile.tsx:188-196 | the lower-cased text after the last `.` when non-empty, else the subtype of an `image/` type, else `jpg` |
| Profile.FileExtFromName | pages/profile.tsx:188-196 | a name with text after its last dot takes that text, lower-cased |
| Profile.FileExtOfName | pages/profile.tsx:188-196 | `Photo.PNG` gives `png` |
| Profile.FileExtOfMime | pages/profile.tsx:188-196 | `avatar` of type `image/webp` gives `webp` |
| Profile.FileExtFallback | pages/profile.tsx:188-196 | `scan.` of type `application/pdf` gives `jpg` |
| Profile.StorageKey | pages/profile.tsx:198-203 | the key is `acct/users/uid/kind-stamp.ext`, and there is none without both ids |
| Profile.StorageKeyFolder | pages/profile.tsx:198-203 | the key lies in the user's folder and its first segment is the account id |
| Profile.DistinctIdsMembers | pages/profile.tsx:101-107 | the de-duplicated ids are exactly the non-empty ids not yet seen |
| Profile.DistinctIds | pages/profile.tsx:101-107 | `Array.from(new Set(ids.filter(Boolean)))`: never more ids than given; DistinctIdsMembers, DistinctIdsDistinct and DistinctIdsOrdered state the rest |
| Profile.DistinctIdsDistinct | pages/profile.tsx:101-107 | no id occurs twice |
| Profile.DistinctIdsOrdered | pages/profile.tsx:101-107 | ids keep the order of their first occurrence |
| Profile.AccountIdsSpec | pages/profile.tsx:101-107 | the account ids are exactly the non-empty membership ids, each once, in first-occurrence order |
| Profile.AccountIds | pages/profile.tsx:101-107 | the account ids the page fetches: never more than the memberships; AccountIdsSpec states the rest |
| Profile.AccountsById | pages/profile.tsx:111-115 | the map holds exactly the ids whose account was found, each with its account |
| Profile.RoleLabel | pages/profile.tsx:36-40 | `Member` without a role, else the role with its first letter capitalised |
| Profile.RoleLabelExamples | pages/profile.tsx:36-40 | `admin` shows `Admin`, `default` shows `Default`, none shows `Member` |
| Account.TruncateId | pages/account.tsx:42-46 | empty when absent, unchanged up to 12 characters, else the first 8, `…` and the last 4 |
| Account.TruncateIdShortens | pages/account.tsx:42-46 | truncation never lengthens an id and shortens exactly those over 13 characters |
| Account.FoundMembers | pages/account.tsx:80-86 | the users shown are exactly those that were found |
| Account.Found | pages/account.tsx:85 | `fetched.filter(u => !!u)`: never more users than fetches; FoundMembers and FoundAll state the rest |
| Account.FoundAll | pages/account.tsx:80-86 | when every user is found, all are shown |
| Account.MemberUsers | pages/account.tsx:48-102 | users are unknown without an account or while memberships load, empty for no memberships, else the found users, never more than the memberships |
| Account.CountMembers | pages/account.tsx:236-239 | 0 while memberships load, else their number |
| Account.MembersConsistent | pages/account.tsx:100 | loading exactly while an account or its memberships are missing, with the users shown never more than the count |
| Account.FormOf | pages/account.tsx:222-234 | the edit form starts from the account's name and logo path, with no file |
| Account.LogoPath | pages/account.tsx:271 | the logo is stored under `accountId/logo/` |
| Account.ErrorMessage | pages/account.tsx:274-288 | the error's message when it has one, else the fallback |
| Account.Save | pages/account.tsx:262-293 | nothing without an account; a failed upload fails the save; the name is the trimmed form name, else the account's; the logo is the upload, else the form's, else the current one |
| Account.SaveKeepsName | pages/account.tsx:262-293 | saving the unedited form keeps the logo, and a save never blanks a non-blank name |
| Account.UpdateValue | pages/account.tsx:281-284 | the update sets the name, and the logo path only when there is one |
| Account.InviteInsert | pages/account.tsx:300-306 | a new invite is a valid insert with role `default`, the current account and user, and the fresh code |
| Account.ShownInvite | pages/account.tsx:312-324 | the shown invite takes id and role from the created row, else the code and `default` |
| Account.ShownInviteIsRow | pages/account.tsx:312-324 | the shown invite is a valid invite row |
| Account.InviteLink | pages/account.tsx:332-335 | `https://host/accept-account-invite/code`, exactly when there is an invite with a code and a host |
| Account.InviteLinkCarriesCode | pages/account.tsx:300-335 | the link to a fresh invite ends in its code |
| Landing.Next | pages/index.tsx:77 | `next` keeps the index in range and moves it one on, modulo `total` |
| Landing.Prev | pages/index.tsx:78 | `prev` keeps the index in range and moves it one back, modulo `total` |
| Landing.Goto | pages/index.tsx:79 | `goto` lands in range for every integer, negatives included |
| Landing.GotoInRange | pages/index.tsx:79 | a dot's own index is kept as is |
| Landing.PrevNextInverse | pages/index.tsx:77-78 | `prev` undoes `next` and `next` undoes `prev` |
| Landing.StepsWrap | pages/index.tsx:77-86 | after `n` steps the index is `i + n` modulo `total` |
| Landing.RemAloneIsNotEnough | pages/index.tsx:79 | the truncating `%` alone leaves -1 at -1; `goto` brings it to the last slide |
| Landing.Tick | pages/index.tsx:81-86 | a tick advances the index only while autoplay is on |
| Landing.TogglePause | pages/index.tsx:147 | the pause button flips `paused` and nothing else |
| Landing.TogglePauseProperties | pages/index.tsx:81-86 | two presses restore the state; with no focus inside and motion allowed exactly one of the two states autoplays |
| Landing.MouseEnter | pages/index.tsx:88-95 | hovering stops autoplay |
| Landing.MouseLeave | pages/index.tsx:92-95 | leaving clears the pause and keeps the step and the focus flag |
| Landing.FocusCapture | pages/index.tsx:96 | focus inside stops autoplay |
| Landing.BlurCapture | pages/index.tsx:97-103 | focus within clears only when focus leaves the carousel |
| SignInRequired.NextParam | components/SignInRequired.tsx:19-26 | no parameter for an empty path or one under `/sign-in` or `/register`, else the encoded path, which is non-empty and URI safe |
| SignInRequired.CurrentPath | components/SignInRequired.tsx:21 | `router?.asPath \|\| ""`: the path, or empty without a router |
| SignInRequired.WithNext | components/SignInRequired.tsx:28-29 | the page alone without a parameter, else the page with `?next=` and the parameter |
| SignInRequired.AuthLink | components/SignInRequired.tsx:28-29 | both links: the bare page exactly without a parameter, else the page with `?next=` and the encoded path |
| SignInRequired.SameNextOnBothLinks | components/SignInRequired.tsx:28-29 | the sign-in and register links carry the same query after their page |
| SignInRequired.NextIsOneComponent | components/SignInRequired.tsx:25 | the encoded path holds no `&`, `#`, `=`, `?` or `/` |
| SignInRequired.AuthPagesNotRemembered | components/SignInRequired.tsx:23 | a guest on an authentication page is not sent back to it |
| SignInRequired.Copy | components/SignInRequired.tsx:31-33 | the trimmed message when it is not blank, else `Please sign in to continue.` |

## Left out

- Asynchrony and timing: `await`, `delayAsync`, the 50 ms `setTimeout`, the carousel interval and the promise `initAsync` resolves. Each operation runs to completion, and the auth event handler is split at its timer into `AuthStateChanged`, `AuthTimerFired` and `CommitResolution`.
- The rxjs subjects: a `Subject` or `BehaviorSubject` is an append-only log of what was published. Subscribers are not modelled.
- Supabase: query, auth, storage and upsert semantics are assumed. The remote is a sequence of rows per table, `single()` is "exactly one row", and `getPublicUrl` is a parameter.
- `localStorage` is a map. Its key order and `for..in` order are not modelled. `SelectAsync` returns the keys it read as a ghost list, so the order of `items` is not fixed.
- `JSON.parse` failures are one `Malformed` case, and `console.error` output is not modelled.
- JSON values are flat: a `Json.Value` is `undefined`, `null`, a boolean, an integer or a string, and a record maps names to such values. Nested objects, arrays and fractional numbers are not modelled, so no row can hold them.
- `Date.now()`, `toISOString()`, `toLocaleString()` and `uuidv4()` are string parameters.
- `new URL(candidate, origin)` is a `resolve` parameter.
- `.order(orderBy, { ascending: !orderByDesc })` in the store: the order the remote applies is an unconstrained `sortRows` parameter of `Store.Execute` (`store.dfy:132`), so nothing is proved about the order of ordered reads.
- App.StrLeq: the newest `last_accessed_at` is chosen by code-point lexicographic order on the text, while the server orders timestamps by time; the two agree for ISO-8601 timestamps written in one format, and the model does not check that format.
- Dashboard.StripMarkdown: the first four regex replacements (inline code, code blocks, images, links) are one `codeAndLinks` parameter. Only the token, whitespace and trim stages are exact (StripMarkdown, StripStepsVisible, StripMarkdownOfPlainText).
- `toLowerCase` and `toUpperCase` map the ASCII letters only; other characters are kept as they are. `trim` and `\s` use the full ECMAScript WhiteSpace and LineTerminator set. Strings are sequences of Unicode scalar values, not UTF-16 units, so the lone-surrogate error of `encodeURIComponent` cannot arise.
- The DOM, clipboard, Blob and object URLs, file inputs and all JSX rendering.
- The React state and effect wiring of the pages: `cancelled` flags, loading toggles and saved-at banners. Only the values the handlers compute are modelled.
- The `Array.isArray` branches of the query readers. Query values are one string, several strings or absent, and several strings never count as a string.
- The public profile link on the profile page, which is plain string formatting.
- `UserRole` follows `lib/schema/types-zod.ts:13` (four roles). `lib/schema.ts:67` declares only `admin` and `guest`; that file holds types only.
- `onReopenAsync` in the dashboard is defined but never wired to a button. Its patch is modelled anyway.
- Invite acceptance and role upgrades: no file in the core implements them.

## Findings

| source | as written | input that shows it | evidently intended | confidence | as-written member | corrected member |
|---|---|---|---|---|---|---|
| pages/dashboard.tsx:52-65 | `filter(Boolean)` also drops the blank lines around `---`, and the description is appended with no newline | a task with no title, status or dates and description `Hi` exports `# Untitled task\nStatus: active\n---Hi` (Dashboard.ExportGlueExample) | a blank line after the title and `---` on its own line before the description | not executed | Dashboard.ExportContentAsWritten | Dashboard.ExportContent |
| pages/dashboard.tsx:149-180 | reopen and unarchive send `completed_at: undefined` and `archived_at: undefined`, which JSON drops, so the columns keep their times | a completed task with `completed_at` set, reopened, still has that `completed_at` | the completion and archive times are cleared (`null`) | not executed | Dashboard.ReopenKeepsCompletedAt | Dashboard.ReopenClears |
