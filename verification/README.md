# codjiflo core, modelled in Dafny

codjiflo is a web viewer for GitHub pull requests. It has four parts:
- It signs the user in, with a personal access token or with GitHub OAuth.
  The OAuth flow uses PKCE and carries its state and tokens in cookies.
- It loads a pull request, its changed files and its review comments from the GitHub REST API.
- It parses each file's unified-diff patch into numbered lines.
- It shows the lines beside their comment threads and lets the user comment and reply.

This project models the logic behind those steps as pure Dafny functions over immutable data. The model covers:
- the patch parser and the hunk-header pattern;
- the language lookup;
- the mapping between diff positions and line indices;
- the grouping of GitHub review comments into threads;
- the reducers of the comments, diff, pull-request and auth stores;
- what the diff view derives for each line;
- the GitHub backends' payload mapping;
- the pull-request URL matcher;
- the relative-time formatter;
- the token check;
- the cookie helpers, over an abstract cookie jar;
- base64url and PKCE;
- the decisions of the OAuth callback page.

Whatever the code gets from outside is a parameter of the model:
- the network's replies;
- the clock `now`;
- fresh ids;
- random bytes;
- `encodeURIComponent` and `decodeURIComponent`;
- the `btoa`/JSON codec of the token transfer;
- SHA-256.

One module per source file or component:

| module | file | models |
|---|---|---|
| `Wrappers` | `wrappers.dfy` | `Option` |
| `Strings` | `strings.dfy` | JavaScript's `split`, `join`, `trim`, `startsWith`, `String(n)` and `parseInt` on digit runs, and `toLowerCase` on the characters whose lower case is ASCII |
| `Sorting` | `sorting.dfy` | `Array.prototype.sort` with a numeric comparator, which is stable |
| `Grouping` | `grouping.dfy` | the insertion-ordered `Map` that collects values under keys |
| `DiffTypes` | `diff_types.dfy` | `ParsedDiffLine` |
| `LineCounters` | `line_counters.dfy` | the parser's two line counters |
| `HunkHeader` | `hunk_header.dfy` | the `@@ -a,b +c,d @@` regular expression |
| `ParsePatch` | `parse_patch.dfy` | `parsePatch` |
| `LanguageDetect` | `language.dfy` | `detectLanguage` |
| `CommentPosition` | `comment_position.dfy` | `getDiffLinePosition` and `getDiffLineIndexForPosition` |
| `CommentTypes` | `comment_types.dfy` | `Comment`, `ReviewThread` and the GitHub review comment |
| `CommentThreads` | `comment_threads.dfy` | `mapGitHubComment` and `groupCommentsIntoThreads` |
| `CommentsStore` | `comments_store.dfy` | `useCommentsStore` |
| `DiffView` | `diff_view.dfy` | the derivations in `DiffView.tsx` |
| `DiffStore` | `diff_store.dfy` | `useDiffStore` |
| `PRStore` | `pr_store.dfy` | `usePRStore` |
| `ApiTypes` | `api_types.dfy` | `Review` and `FileChange` |
| `GitHubTypes` | `github_types.dfy` | GitHub's pull-request and file payloads |
| `Failures` | `failures.dfy` | the errors a backend call can throw, and the stores' message choice |
| `GitHubBackends` | `backends.dfy` | `review-backend.ts` and `file-backend.ts` |
| `ParsePrUrl` | `parse_pr_url.dfy` | `parseGitHubPRUrl` |
| `TimeAgo` | `time_ago.dfy` | `formatTimeAgo` |
| `GitHubClient` | `github_client.dfy` | `src/api/github-client.ts` |
| `AuthStore` | `auth_store.dfy` | `useAuthStore` |
| `Cookies` | `cookies.dfy` | `cookies.ts` |
| `Pkce` | `pkce.dfy` | `pkce.ts` |
| `OAuthCallback` | `oauth_callback.dfy` | the callback page |

## Model

| member | source | states |
|---|---|---|
| Strings.NatToDecimalInjective | src/api/github/review-backend.ts:23 | `String(n)` of a natural number is injective: two ids print alike only when they are equal |
| Strings.SplitJoin | src/features/auth/utils/cookies.ts:85 | splitting a join of separator-free pieces gives the pieces back, which is the basis of every `split` round trip |
| Strings.TrimSlice | src/features/diff/components/DiffView.tsx:209 | `trim()` returns a contiguous slice of its input with only whitespace cut on either side |
| Strings.TrimNoEdgeWhitespace | src/features/diff/components/DiffView.tsx:209 | a string that neither starts nor ends with whitespace is its own trim |
| Strings.ToLowerIdempotent | src/features/diff/utils/parse-patch.ts:78 | lower-casing twice is lower-casing once |
| Strings.LowerCharCapitals | src/features/diff/utils/parse-patch.ts:78 | a character changes under lower-casing exactly when it is an ASCII capital or the Kelvin sign, and what comes out is never such a capital |
| Strings.LowerAsciiFrom | src/features/diff/utils/parse-patch.ts:78 | a text whose lower case is all ASCII holds only ASCII characters and Kelvin signs |
| Sorting.SortBy | src/features/comments/stores/useCommentsStore.ts:111-116 | the sort by a numeric key returns a permutation of its input, ordered by key, and keeps the input order within each key (stability) |
| Sorting.StableSortUnique | src/features/diff/components/DiffView.tsx:55-59 | two key-ordered sequences that list each key's elements in the same order are equal, so any stable sort gives the same result |
| Grouping.GroupBy | src/features/comments/stores/useCommentsStore.ts:90-109 | the keyed collection has distinct keys, one group per key that occurs, each group's members in input order, no empty group, as many members as pairs, and groups in the order of their keys' first occurrence |
| Grouping.LookupGroupBy | src/features/diff/components/DiffView.tsx:62-70 | `map.get(key) ?? []` after the grouping is exactly the values paired with that key, in input order |
| Grouping.OrderOfFirsts | src/features/comments/stores/useCommentsStore.ts:111 | `Array.from(map.values())` lists a key whose first pair comes earlier before a key whose first pair comes later |
| LineCounters.CounterSinceStart | src/features/diff/utils/parse-patch.ts:26-27 | after the last reset of a counter, its value is the reset value plus the number of lines that advanced it since |
| HunkHeader.HunkHeaderRecognised | src/features/diff/utils/parse-patch.ts:23-27 | every line of the form `@@ -a[,b] +c[,d] @@…` with digit runs a and c yields the starts (a, c) |
| HunkHeader.HunkStartsSound | src/features/diff/utils/parse-patch.ts:23-27 | a line yields starts only if it has that form, and then the starts are the decimal values of its first and third digit runs |
| ParsePatch.ParsePatch | src/features/diff/utils/parse-patch.ts:9 | the empty patch parses to no lines |
| ParsePatch.StepEmits | src/features/diff/utils/parse-patch.ts:19-66 | one piece emits one line of the kind and content its first character calls for, numbered from the counters before it, and updates each counter as its kind demands |
| ParsePatch.ParsePatchLines | src/features/diff/utils/parse-patch.ts:8-70 | a non-empty patch gives one line per kept piece, in order, each read from its piece, and numbered consistently with the counters |
| ParsePatch.HunkNumbering | src/features/diff/utils/parse-patch.ts:26-65 | within a hunk, a line that carries an old or new number has the hunk's start plus the count of earlier lines in the hunk that carry one on that side |
| ParsePatch.ParsePatchHunkNumbering | src/features/diff/utils/parse-patch.ts:8-70 | the hunk numbering holds of `parsePatch`'s own output |
| LanguageDetect.DetectLanguage | src/features/diff/utils/parse-patch.ts:77-125 | the language is a value of the extension table or `plaintext` |
| LanguageDetect.ExtensionIsAfterLastDot | src/features/diff/utils/parse-patch.ts:78 | the extension holds no dot and is the whole name when there is no dot, otherwise what follows the last dot |
| LanguageDetect.ExtensionLower | src/features/diff/utils/parse-patch.ts:78 | the extension of the lower-cased name is the lower-cased extension, since lower-casing keeps the dots where they are |
| LanguageDetect.DetectLanguageCaseInsensitive | src/features/diff/utils/parse-patch.ts:78 | lower-casing the file name first does not change the detected language |
| LanguageDetect.KelvinSignExtension | src/features/diff/utils/parse-patch.ts:78 | the Kelvin sign lowers to `k`, so `a.\u212At` is detected as Kotlin |
| LanguageDetect.KeyCharactersLowerToAscii | src/features/diff/utils/parse-patch.ts:78-125 | an extension whose modelled lower case is a key of the table holds only ASCII characters and Kelvin signs |
| LanguageDetect.DetectLanguageAsWritten | src/features/diff/utils/parse-patch.ts:125 | the indexing of the table as written agrees with the corrected lookup whenever it finds one of the table's own entries |
| LanguageDetect.DetectLanguageAsWrittenReturnsConstructor | src/features/diff/utils/parse-patch.ts:125 | for `a.constructor` the lookup as written returns the inherited `constructor` member, where the corrected lookup gives `plaintext` |
| CommentPosition.GetDiffLinePosition | src/features/diff/utils/comment-position.ts:3-24 | no position for an index out of range or at a header; otherwise the count of non-header lines up to and including the index, between 1 and the total |
| CommentPosition.IndexFrom | src/features/diff/utils/comment-position.ts:34-45 | the scan from a prefix finds a line exactly when the position does not exceed the total, and the line it finds is the non-header line at which the count reaches the position |
| CommentPosition.GetDiffLineIndexForPosition | src/features/diff/utils/comment-position.ts:26-46 | nothing for a position that is not positive or beyond the total; otherwise the non-header line at which the count of non-header lines reaches the position |
| CommentPosition.PositionsIncrease | src/features/diff/utils/comment-position.ts:16-23 | of two non-header lines, the later one has the larger position |
| CommentPosition.IndexOfPosition | src/features/diff/utils/comment-position.ts:3-46 | the index found for a line's position is that line |
| CommentPosition.PositionOfIndex | src/features/diff/utils/comment-position.ts:3-46 | the position of the line found for a position is that position |
| CommentThreads.MapGitHubComment | src/features/comments/stores/useCommentsStore.ts:54-71 | the ids become their decimal strings; a missing line reads 0; the reply link is kept exactly when GitHub sends one; the other fields are copied |
| CommentThreads.LastWithId | src/features/comments/stores/useCommentsStore.ts:74-75 | with repeated ids the map keeps the last comment that has the id, and reports none when no comment has it |
| CommentThreads.ParentIndex | src/features/comments/stores/useCommentsStore.ts:83-84 | a comment has a parent exactly when its reply link is non-zero and names a comment of the batch |
| CommentThreads.FirstOfId | src/features/comments/stores/useCommentsStore.ts:79-81 | the comment whose walk fills the root cache for an id is an earlier or the same comment with that id |
| CommentThreads.FirstOfIdIsFirst | src/features/comments/stores/useCommentsStore.ts:79-81 | no comment before it carries that id |
| CommentThreads.RootIndex | src/features/comments/stores/useCommentsStore.ts:82-85 | the root walk ends at a comment of the batch that has no parent |
| CommentThreads.RepeatedIdCached | src/features/comments/stores/useCommentsStore.ts:77-87 | comments with the same id get the same root, the one cached by the first of them |
| CommentThreads.CachedRootOnRepeatedId | src/features/comments/stores/useCommentsStore.ts:77-87 | in the batch `[1, 2, 1 answering 2]` the third comment gets the cached root 1, not root 2 of the comment it answers |
| CommentThreads.OwnRoot | src/features/comments/stores/useCommentsStore.ts:79-87 | a comment whose id is first carried by a comment without a parent in the batch is its own root |
| CommentThreads.ReplySharesRoot | src/features/comments/stores/useCommentsStore.ts:82-87 | the first comment of an id that answers the only comment of another id has the same root as that comment |
| CommentThreads.GroupCommentsIntoThreads | src/features/comments/stores/useCommentsStore.ts:73-117 | threads have distinct ids and are non-empty and unresolved, their comments together number the batch, and each thread's comments are ordered by creation time |
| CommentThreads.ThreadIndexOf | src/features/comments/stores/useCommentsStore.ts:90-109 | every comment of the batch sits, mapped, in the thread whose id is its root's id |
| CommentThreads.CommentInOneThread | src/features/comments/stores/useCommentsStore.ts:90-109 | exactly one thread carries a comment's root id |
| CommentThreads.ReplyInParentThread | src/features/comments/stores/useCommentsStore.ts:78-109 | a reply lands in its parent's thread when it is the first comment of its id and its parent the only one of its id |
| CommentThreads.DistinctIdsReplyInParentThread | src/features/comments/stores/useCommentsStore.ts:78-109 | in a batch of distinct ids every reply lands in its parent's thread |
| CommentThreads.ThreadFieldsFromFirst | src/features/comments/stores/useCommentsStore.ts:101-108 | a thread takes its path, line and side from the first comment of its root in the batch |
| CommentThreads.ThreadsInFirstOccurrenceOrder | src/features/comments/stores/useCommentsStore.ts:111 | threads appear in the order in which their roots first occur in the batch |
| CommentThreads.ThreadContents | src/features/comments/stores/useCommentsStore.ts:111-116 | a thread holds exactly the mapped comments of its root, sorted stably by creation time |
| CommentThreads.CountOfThreads | src/features/comments/stores/useCommentsStore.ts:96-109 | the comments of the threads number the pairs grouped |
| CommentsStore.LoadThreadsStarted | src/features/comments/stores/useCommentsStore.ts:127 | loading starts with the error cleared, and nothing else changes |
| CommentsStore.LoadThreadsSucceeded | src/features/comments/stores/useCommentsStore.ts:132 | the threads become `groupCommentsIntoThreads` of the batch, so every grouping lemma holds of the store: one comment per comment fetched, no empty thread, and loading ends with the rest kept |
| CommentsStore.LoadThreadsMessage | src/features/comments/stores/useCommentsStore.ts:134-139 | the message names the pull request and repository, followed by `: ` and the error's text for an API error or an Error |
| CommentsStore.LoadThreadsFailed | src/features/comments/stores/useCommentsStore.ts:140 | a failure sets the message, ends loading and keeps the threads |
| CommentsStore.FindThread | src/features/comments/stores/useCommentsStore.ts:158-160 | `findIndex` finds the first thread anchored at the path, line and side, and none when no thread is |
| CommentsStore.AddComment | src/features/comments/stores/useCommentsStore.ts:144-187 | the comment joins the end of the first thread at its anchor, or a new thread is appended; no other thread changes; the announcement is `Comment posted.` |
| CommentsStore.Reply | src/features/comments/stores/useCommentsStore.ts:195-207 | a reply takes the thread's anchor and the last comment's position, and links to the last comment when that comment has a non-empty id |
| CommentsStore.AddReply | src/features/comments/stores/useCommentsStore.ts:189-213 | every thread with the id gets the reply appended, the others are unchanged, and the announcement is `Reply posted.` |
| CommentsStore.EditComment | src/features/comments/stores/useCommentsStore.ts:215-228 | every comment with the id gets the new body and time, every other comment and all thread fields stay, and the announcement is `Comment updated.` |
| CommentsStore.Without | src/features/comments/stores/useCommentsStore.ts:235 | the filter keeps exactly the comments whose id differs |
| CommentsStore.DeleteComment | src/features/comments/stores/useCommentsStore.ts:230-241 | the threads left are the non-empty ones of the old threads with the id's comments filtered out, in their old order; each is an old thread with its other fields kept; no comment with the id survives, every other comment survives in a thread with its thread's id, and no thread is left empty |
| CommentsStore.ToggleResolved | src/features/comments/stores/useCommentsStore.ts:243-250 | exactly the threads with the id flip their resolved flag |
| CommentsStore.ToggleTwice | src/features/comments/stores/useCommentsStore.ts:243-250 | toggling twice restores the state |
| CommentsStore.DeleteUndoesAdd | src/features/comments/stores/useCommentsStore.ts:144-241 | deleting a freshly added comment gives back the threads, when its id was unused and no thread was empty |
| CommentsStore.NonEmptyThreadsMembers | src/features/comments/stores/useCommentsStore.ts:237 | the thread filter keeps exactly the non-empty threads |
| CommentsStore.ClearError | src/features/comments/stores/useCommentsStore.ts:252 | only the error changes, to none |
| CommentsStore.ClearAnnouncement | src/features/comments/stores/useCommentsStore.ts:253 | only the announcement changes, to empty |
| CommentsStore.Reset | src/features/comments/stores/useCommentsStore.ts:254-260 | the initial state, with the current user kept |
| DiffView.SelectedFile | src/features/diff/components/DiffView.tsx:31 | a file exactly when the index is in range, and then the file at the index |
| DiffView.ContentFor | src/features/diff/components/DiffView.tsx:36-44 | no file or an empty patch gives no lines and `plaintext`; otherwise the parsed patch, one line per kept piece, numbered consistently, and the detected language |
| DiffView.ForFileMembers | src/features/diff/components/DiffView.tsx:49-54 | the filter keeps exactly the non-empty threads on the file |
| DiffView.ThreadsForFile | src/features/diff/components/DiffView.tsx:46-60 | nothing without a file name; otherwise exactly the file's non-empty threads, a permutation of the filter's output, sorted stably by the first comment's creation time |
| DiffView.LineKeyInjective | src/features/diff/components/DiffView.tsx:65 | two line-and-side keys are equal exactly when the lines and sides are |
| DiffView.BucketContents | src/features/diff/components/DiffView.tsx:62-70 | the bucket of a key holds exactly the threads at that line and side, in their order |
| DiffView.OneBucketEach | src/features/diff/components/DiffView.tsx:62-70 | a thread is in the bucket of its own key and in no other |
| DiffView.LineThreadsJoin | src/features/diff/components/DiffView.tsx:228-233 | a line shows the threads at its old number on the left, then those at its new number on the right |
| DiffView.TableRows | src/features/diff/components/DiffView.tsx:227-234 | each row shows its line, offers the comment button exactly on non-header lines, and lists the file's threads at its numbers, none for a header |
| DiffView.SubmitDraft | src/features/diff/components/DiffView.tsx:187-222 | a comment is posted exactly when no submission is in flight, the index names a line, its number on the chosen side is present and not zero, and there is a file name; the comment carries the side (left for deletions), that number, the trimmed body and the line's position |
| DiffView.DraftOnParsedLines | src/features/diff/components/DiffView.tsx:191-211 | on a parsed patch, a comment is posted for every non-header line whose number is not 0, with the number the parser's counter held and a position that leads back to the line |
| DiffStore.SelectFile | src/features/diff/stores/useDiffStore.ts:35-40 | the selection moves to the index only when the index names a file; nothing else changes |
| DiffStore.SelectNextFile | src/features/diff/stores/useDiffStore.ts:42-47 | the selection advances by one exactly when it is before the last file, otherwise the state is unchanged |
| DiffStore.SelectPreviousFile | src/features/diff/stores/useDiffStore.ts:49-54 | the selection goes back by one exactly when it is past the first file, otherwise the state is unchanged |
| DiffStore.SelectionsKeepValid | src/features/diff/stores/useDiffStore.ts:35-54 | the three moves keep the selection on a file |
| DiffStore.StepsUndo | src/features/diff/stores/useDiffStore.ts:42-54 | a step forward and one back, or back and forward, return to the start when both can move |
| DiffStore.LoadFilesStarted | src/features/diff/stores/useDiffStore.ts:12 | loading starts with the error cleared |
| DiffStore.LoadFilesFinished | src/features/diff/stores/useDiffStore.ts:13-31 | success stores the files and selects the first; failure clears the files and sets the failure's message; loading ends either way |
| DiffStore.LoadFilesOutcome | src/features/diff/stores/useDiffStore.ts:11-33 | after a load the error is none exactly on success, with the fixed messages for 404, 401/403 and non-errors |
| DiffStore.Reset | src/features/diff/stores/useDiffStore.ts:56 | the initial state |
| Failures.FailureMessage | src/features/pr/stores/usePRStore.ts:16-28 | 404 and 401/403 API errors get their fixed messages, other API errors and Errors their own text, and anything else the fallback |
| PRStore.LoadPRStarted | src/features/pr/stores/usePRStore.ts:11 | loading starts with the error cleared, and the pull request kept |
| PRStore.LoadPRFinished | src/features/pr/stores/usePRStore.ts:12-30 | success stores the pull request; failure clears it and sets the failure's message; loading ends either way |
| PRStore.LoadPROutcome | src/features/pr/stores/usePRStore.ts:10-32 | after a load a pull request is present, and the error absent, exactly on success, with the fixed messages for 404, 401/403 and non-errors |
| PRStore.ClearError | src/features/pr/stores/usePRStore.ts:34 | only the error changes, to none |
| PRStore.Reset | src/features/pr/stores/usePRStore.ts:36 | the initial state |
| GitHubBackends.ReviewPathInjective | src/api/github/review-backend.ts:13 | with slash-free names, two review paths are equal exactly when owner, repository and number are |
| GitHubBackends.FilesPathSplits | src/api/github/file-backend.ts:13 | the files path is the review path followed by `/files` |
| GitHubBackends.MapState | src/api/github/review-backend.ts:35-39 | draft wins, then merged, then open exactly when the state is open, closed otherwise |
| GitHubBackends.MapReview | src/api/github/review-backend.ts:16-32 | a null body reads as empty; the author id is the user id's decimal string; the branches are head and base; the other fields are copied |
| GitHubBackends.AuthorIdFaithful | src/api/github/review-backend.ts:23 | two reviews have the same author id exactly when their users have the same numeric id |
| GitHubBackends.GetReview | src/api/github/review-backend.ts:11-33 | the fetched pull request mapped, or the fetch's failure unchanged |
| GitHubBackends.MapStatus | src/api/github/file-backend.ts:32-43 | added, removed and renamed keep their meaning, and every other status reads as modified |
| GitHubBackends.MapFile | src/api/github/file-backend.ts:17-28 | a missing patch reads as empty; the previous name is present exactly when it is a non-empty string; the counts are copied |
| GitHubBackends.MapFiles | src/api/github/file-backend.ts:16-29 | one change per file, in order |
| GitHubBackends.MapFilesAppend | src/api/github/file-backend.ts:16 | mapping a concatenation maps each part |
| GitHubBackends.GetFiles | src/api/github/file-backend.ts:11-30 | the fetched list mapped, or the fetch's failure unchanged |
| ParsePrUrl.ParseFindsMatch | src/features/pr/utils/parse-pr-url.ts:11-14 | a result is returned exactly when the pattern matches at some position |
| ParsePrUrl.ParseFindsOccurrence | src/features/pr/utils/parse-pr-url.ts:11-14 | whenever `github.com/<owner>/<repo>/pull/<digits>` occurs, with slash-free non-empty names, a result is returned, from that occurrence or an earlier one |
| ParsePrUrl.ParseSound | src/features/pr/utils/parse-pr-url.ts:11-22 | a result comes from the leftmost occurrence, with the maximal digit run read as the number |
| ParsePrUrl.ParseAddress | src/features/pr/utils/parse-pr-url.ts:11-22 | an address followed by anything but a digit parses to its owner, repository and number |
| ParsePrUrl.MatchAtComplete | src/features/pr/utils/parse-pr-url.ts:11 | at an occurrence the pattern matches and captures the names, and the number when the digit run is maximal |
| ParsePrUrl.MatchAtSound | src/features/pr/utils/parse-pr-url.ts:11 | a match at a position captures an occurrence there, with a maximal digit run |
| ParsePrUrl.PrefixIgnored | src/features/pr/utils/parse-pr-url.ts:11-12 | text without a `g` put before the address changes nothing |
| ParsePrUrl.ProtocolIgnored | src/features/pr/utils/parse-pr-url.ts:11-12 | an `http://` or `https://` prefix changes nothing |
| TimeAgo.ElapsedSeconds | src/utils/time.ts:4 | whole seconds elapsed, with negative and sub-second times giving 0 |
| TimeAgo.Classify | src/utils/time.ts:6-31 | exactly one bucket applies, by the thresholds 45 s, 60 min, 24 h, 30 days and 12 months, and its count is the elapsed time in whole units |
| TimeAgo.FutureIsJustNow | src/utils/time.ts:2-8 | less than 45 s, a future date included, reads `just now` |
| TimeAgo.CountIsWholeUnits | src/utils/time.ts:10-31 | a bucket's count is the number of whole units elapsed |
| TimeAgo.LaterIsCoarser | src/utils/time.ts:4-31 | more time elapsed never lands in a finer bucket, and never gives a smaller count within one bucket |
| TimeAgo.LaterIsCoarserMs | src/utils/time.ts:2-31 | the same ordering holds for elapsed milliseconds |
| TimeAgo.SingularOnlyForOne | src/utils/time.ts:12 | the unit is singular exactly when the count is 1 |
| TimeAgo.TextInjective | src/utils/time.ts:1-32 | distinct buckets or counts give distinct texts |
| GitHubClient.ValidFormatExtends | src/api/github-client.ts:66-68 | only the prefix of a token decides its format |
| GitHubClient.RejectedFormats | src/api/github-client.ts:66-68 | the empty string and the `gho_` and `pat_` look-alikes are rejected; `ghp_` and `github_pat_` are accepted |
| GitHubClient.AuthorizationHeader | src/api/github-client.ts:27 | `Bearer ` followed by the token |
| GitHubClient.ValidateToken | src/api/github-client.ts:23-60 | success exactly for an ok reply whose body parses; 401 gives the fixed bad-token message; other statuses give the body's message or `Authentication failed.`; a throw or an unparsable body gives the network error; every failure has a message |
| AuthStore.ValidateGitHubToken | src/features/auth/stores/useAuthStore.ts:26-38 | the token is accepted exactly when the request answered with an ok status |
| AuthStore.StoreAndClientAgree | src/features/auth/stores/useAuthStore.ts:26-38 | the store accepts whatever the client accepts, and more only when an ok reply's body does not parse |
| AuthStore.SetToken | src/features/auth/stores/useAuthStore.ts:47 | the token is stored, authenticated set and the error cleared |
| AuthStore.Logout | src/features/auth/stores/useAuthStore.ts:48 | the token and authentication are cleared with the error |
| AuthStore.ClearError | src/features/auth/stores/useAuthStore.ts:49 | only the error changes, to none |
| AuthStore.ValidationStarted | src/features/auth/stores/useAuthStore.ts:52 | validation starts with the error cleared and the session kept |
| AuthStore.ValidationFinished | src/features/auth/stores/useAuthStore.ts:61-70 | applied to the state when the answer arrives: an accepted token signs in over whatever is there, a refused one sets the bad-token message and keeps the rest, and validating ends |
| AuthStore.LogoutDuringValidation | src/features/auth/stores/useAuthStore.ts:48-70 | a `logout` during the `await` is undone by an accepted answer and kept by a refusal |
| AuthStore.ValidateToken | src/features/auth/stores/useAuthStore.ts:50-71 | with nothing acting during the `await`: true exactly when the format is valid and the API accepted; a bad format sets its message; an accepted token signs in; a rejected one sets the bad-token message; validating ends on every path |
| AuthStore.FormatCheckedFirst | src/features/auth/stores/useAuthStore.ts:55-58 | for a malformed token the API's answer does not matter |
| AuthStore.FailureKeepsSession | src/features/auth/stores/useAuthStore.ts:55-70 | a failed validation keeps the token and the authentication and sets an error |
| AuthStore.Partialize | src/features/auth/stores/useAuthStore.ts:75 | the persisted record is the token and the authenticated flag |
| AuthStore.PersistRoundTrip | src/features/auth/stores/useAuthStore.ts:74-75 | two states persist alike exactly when their tokens and flags agree, and a rehydrated record persists as itself |
| AuthStore.LogoutAfterSignIn | src/features/auth/stores/useAuthStore.ts:48-66 | signing out after a successful validation gives the initial state |
| Cookies.GetBaseDomain | src/features/auth/utils/cookies.ts:21-39 | a base domain exactly for a non-local hostname with a dot |
| Cookies.BaseDomainCoversHost | src/features/auth/utils/cookies.ts:33-35 | the base domain is `.` and the last two labels, and the hostname ends with it |
| Cookies.CookieDomain | src/features/auth/utils/cookies.ts:55-74 | the given domain, else the base domain, and never an empty one |
| Cookies.CookieFields | src/features/auth/utils/cookies.ts:55-74 | the encoded pair, path, max-age and samesite fields with their defaults, then ` secure` exactly when secure, then the domain exactly when one applies |
| Cookies.SetCookieReadsBack | src/features/auth/utils/cookies.ts:63-74 | the cookie string splits on `;` back into its fields |
| Cookies.SetCookieDefaults | src/features/auth/utils/cookies.ts:55-59 | without options: path `/`, max-age 600, samesite `Lax`, and secure exactly on https |
| Cookies.DeleteCookieWrites | src/features/auth/utils/cookies.ts:101-113 | two `max-age=0` writes, the first with the domain when one applies and the second without one |
| Cookies.PutLookup | src/features/auth/utils/cookies.ts:76 | a write with a positive max-age makes the name read its new value and leaves other names alone |
| Cookies.RemoveLookup | src/features/auth/utils/cookies.ts:109-112 | a `max-age=0` write makes the name read nothing and leaves other names alone |
| Cookies.GetCookieReadsJar | src/features/auth/utils/cookies.ts:82-96 | on a well-formed jar, `getCookie` returns the decoded value stored under the encoded name, and nothing when there is none |
| Cookies.DeleteIn | src/features/auth/utils/cookies.ts:101-113 | after deletion the name reads nothing |
| Cookies.RetrieveOAuthState | src/features/auth/utils/cookies.ts:133-146 | a pair exactly when both values are present and non-empty, then both are deleted; otherwise the jar is unchanged |
| Cookies.OAuthStateTakenOnce | src/features/auth/utils/cookies.ts:118-146 | stored state is returned once and is gone on a second read |
| Cookies.RetrieveReturnOrigin | src/features/auth/utils/cookies.ts:151-159 | the value read, deleted when non-empty, with the jar unchanged otherwise |
| Cookies.ReturnOriginTakenOnce | src/features/auth/utils/cookies.ts:126-159 | a stored origin is returned once and is gone on a second read |
| Cookies.TokenTransferLifetime | src/features/auth/utils/cookies.ts:176-178 | the transfer cookie is written with `max-age=60` |
| Cookies.RetrieveTokenTransfer | src/features/auth/utils/cookies.ts:184-200 | nothing and an unchanged jar without a non-empty value; otherwise the parsed value, with the cookie deleted |
| Cookies.TokenTransferTakenOnce | src/features/auth/utils/cookies.ts:174-200 | a stored transfer record is returned once and is gone on a second read |
| Pkce.UrlValue | src/features/auth/utils/pkce.ts:52-55 | a character has a base64url value exactly when it is one of `A-Z a-z 0-9 - _`, and the value's digit is the character |
| Pkce.TranslateEncode | src/features/auth/utils/pkce.ts:52-54 | replacing `+` with `-` and `/` with `_` turns standard base64 into the URL-safe alphabet |
| Pkce.Base64UrlIsUnpadded | src/features/auth/utils/pkce.ts:46-56 | the result is unpadded base64url of the bytes (sections 4 and 5 of RFC 4648) |
| Pkce.Base64UrlShape | src/features/auth/utils/pkce.ts:46-56 | only base64url characters, no `=`, and length ⌈4n/3⌉ for n bytes |
| Pkce.DecodeEncode | src/features/auth/utils/pkce.ts:46-56 | decoding the encoding gives the bytes back |
| Pkce.Base64UrlInjective | src/features/auth/utils/pkce.ts:46-56 | distinct byte strings encode differently |
| Pkce.GenerateCodeVerifier | src/features/auth/utils/pkce.ts:11-15 | 32 random bytes give 43 base64url characters, inside the 43-128 range of section 4.1 of RFC 7636 |
| Pkce.GenerateState | src/features/auth/utils/pkce.ts:34-38 | 16 random bytes give 22 base64url characters |
| Pkce.GenerateCodeChallenge | src/features/auth/utils/pkce.ts:23-28 | the base64url digest: 43 characters for a 32-byte digest |
| Pkce.ChallengeFollowsDigest | src/features/auth/utils/pkce.ts:23-28 | two verifiers share a challenge exactly when they share a digest |
| Pkce.DistinctRandomDistinctValues | src/features/auth/utils/pkce.ts:11-38 | distinct random bytes give distinct verifiers and states |
| OAuthCallback.Precheck | src/app/auth/callback/page.tsx:35-45 | an error parameter ends with its description, or the error itself; otherwise a missing code or state ends with the missing-parameter message |
| OAuthCallback.ExpiresAt | src/app/auth/callback/page.tsx:94-95 | expiry is now plus the given lifetime, or 8 hours, in milliseconds |
| OAuthCallback.TransferFrom | src/app/auth/callback/page.tsx:98-102 | the transfer record has the access token, the refresh token exactly when one was returned, and the expiry |
| OAuthCallback.CrossOriginEnding | src/app/auth/callback/page.tsx:79-105 | a throw, a reply error or a missing token end with their messages; otherwise the page leaves for the return origin's landing page with the transfer record |
| OAuthCallback.SameOriginEnding | src/app/auth/callback/page.tsx:106-120 | the dashboard exactly when the sign-in succeeded; a failure or a throw end with their messages |
| OAuthCallback.ProcessCallback | src/app/auth/callback/page.tsx:35-120 | the checks run in order (error parameter, missing parameters, expired session, CSRF); a token exchange is attempted exactly when the state matches the stored state, with the code and stored verifier, cross-origin exactly when a different return origin was stored |
| OAuthCallback.LeavingNeedsAcceptedState | src/app/auth/callback/page.tsx:54-105 | the page leaves for another origin only after the state check passed and only to a different, non-empty return origin |
| OAuthCallback.DashboardNeedsSignIn | src/app/auth/callback/page.tsx:54-110 | the dashboard is reached exactly when the state matched, no other origin is involved and the sign-in succeeded |
| OAuthCallback.FirstFailingCheckDecides | src/app/auth/callback/page.tsx:35-58 | once a check fails, nothing later affects the outcome, which is an error |
| OAuthCallback.ExpiryFromReply | src/app/auth/callback/page.tsx:94-95 | without a lifetime the record expires 28 800 000 ms from now, and with a positive one after now |
| OAuthCallback.CallbackInJar | src/app/auth/callback/page.tsx:35-45 | a query that fails its first two checks leaves the cookies alone |
| OAuthCallback.JarCallbackDecidesOnStoredState | src/app/auth/callback/page.tsx:47-63 | the exchange happens exactly when the state matches the one stored in the cookies, and a rejected state touches only the state cookies |
| OAuthCallback.AcceptedCallbackTakesState | src/app/auth/callback/page.tsx:47-102 | after an accepted callback the verifier cookie is gone |
| OAuthCallback.ReplayIsRejected | src/app/auth/callback/page.tsx:47-52 | replaying an accepted callback on the cookies it left ends with the expired-session error and no exchange |
| OAuthCallback.LandingReadsTransfer | src/app/auth/callback/page.tsx:98-105 | when the page leaves for another origin, the transfer cookie it wrote reads back as the record it carries |

## Left out

- Network I/O is not modelled: `fetch`, `githubClient.fetch` and the token exchange. Their outcomes are parameters: a reply datatype or an `Outcome` of data or failure.
- The fetch inside `loadThreads` is not modelled. Its success and failure are separate reducers, `LoadThreadsSucceeded` and `LoadThreadsFailed`.
- React rendering, routing and effects are not modelled (`setIsProcessing`, `router.replace`, `window.location.href`). The callback's end is an `Ending` value.
- `Date.now()`, `new Date()` and date-string parsing are not modelled. Dates are integer milliseconds, and `now` is a parameter.
- `createLocalId` is not modelled. Fresh ids are parameters (`commentId`, `threadId`, `freshId`).
- `crypto.getRandomValues` is not modelled. The random bytes are a parameter.
- SHA-256 is not modelled. The digest is a function parameter.
- `btoa`/`atob` and JSON in the token transfer are not modelled. They are a `serialize`/`parse` pair of parameters. A `btoa` throw inside `storeTokenTransfer` is not modelled.
- `encodeURIComponent` and `decodeURIComponent` are parameters. The model assumes the encoder's output never contains `;`, `=` or whitespace, and that decoding inverts it.
- Cookies.GetCookie: the `URIError` that `decodeURIComponent` throws on a malformed value (such as `%E0%A4%A`) is not modelled, because `dec` is total. In the source, that throw inside `retrieveOAuthState` happens before the callback page's `try` and leaves the page waiting. The model always reaches an `Ending`.
- `document.cookie` is an ordered list of name/value pairs. A write with `max-age=0` deletes. Path, domain and expiry are not otherwise tracked.
- The hostname and any given domain are assumed to contain no `;`.
- `maxAge` is a natural number.
- `console.error` calls are left out.
- `isValidReturnOrigin` is re-exported by `pkce.ts` but is not defined in `cookies.ts`. Its definition is not part of this model.
- `handleOAuthCallback` is called by the callback page but is not defined in `useAuthStore.ts`. Its result is the `SignInReply` parameter.
- `isValidTokenFormat` appears in both `github-client.ts` and `useAuthStore.ts` with the same body. It is defined once, in `GitHubClient`.
- ParsePrUrl.ParseGitHubPRUrl: carries no `ensures` of its own. Its meaning is stated by `ParseFindsMatch`, `ParseFindsOccurrence`, `ParseSound`, `ParseAddress`, `PrefixIgnored` and `ProtocolIgnored`.
- ParsePrUrl.ParseGitHubPRUrl: `parseInt` is read as the exact decimal value. JavaScript's loss of precision above 2^53 and the unreachable `NaN` branch are left out.
- CommentThreads.RootIndex: the root walk has a ghost fuel bound. `RepliesAcyclic` requires that the walk from the first comment of each id ends within the batch's length, which excludes cycles. The source would loop forever on such a cycle.
- CommentThreads.ReplyInParentThread: holds only when the reply is the first comment of its id and its parent the only one of its id. With repeated ids the root cache can put a reply elsewhere (`CachedRootOnRepeatedId`). GitHub's comment ids are distinct, and `DistinctIdsReplyInParentThread` states that case.
- Strings.ToLower: lowers `A`-`Z` and the Kelvin sign only. The other case mappings of `toLowerCase` are not modelled, such as `Ä` to `ä` or `İ` to `i` plus U+0307. Agreement with the source's lookup rests on a fact of the Unicode case tables that this project does not prove: U+212A is the only non-ASCII character whose full lower-case mapping is ASCII. Granted that fact, `DetectLanguage` gives the source's answer for every file name whose lowered extension is not an `Object.prototype` member (see "## Findings").
- LanguageDetect.KeyCharactersLowerToAscii: is stated over the modelled lowering and follows from its definition. It says nothing about the case mappings the model leaves out.
- LanguageDetect.DetectLanguageCaseInsensitive: stated for the modelled lowering, so it covers the ASCII capitals and the Kelvin sign and no other Unicode case pair.
- HunkHeader.HunkStartsSound: `parseInt` is read as the exact decimal value. JavaScript's loss of precision above 2^53 is left out.
- ParsePatch.StepEmits: the line counters are unbounded naturals. JavaScript's `++` on doubles stops counting exactly above 2^53, and that is left out.
- AuthStore.ValidateToken: composes the start and `ValidationFinished` with nothing acting in between. The interleaved case is `ValidationFinished` applied to whatever state the other actions leave.
- CommentsStore.LoadThreadsFailed: keeps the previous threads.
- ParsePatch.ParsePatch: skips every empty piece after the first line.
- DiffView.ThreadsForFile: the source's `createdAt != null` guard always holds for modelled dates, so it is dropped.
- OAuthCallback.Precheck: an empty `error_description` is shown as it is, which is an empty message. This follows the `??` in the code.
- The keyboard-shortcut hook, highlight.js, the route handlers and `buildAuthorizationUrl` are outside the modelled core.

## Findings

| source | as written | input that shows it | evidently intended | confidence | as-written member | corrected member |
|---|---|---|---|---|---|---|
| src/features/diff/utils/parse-patch.ts:125 | `languageMap[ext ?? '']` indexes a plain object literal, so an extension that names an `Object.prototype` member finds the inherited member | the file name `a.constructor` (also `a.__proto__`) yields the `Object` constructor function instead of a language string | a lookup of the table's own entries only, with `plaintext` for anything else | not executed | LanguageDetect.DetectLanguageAsWrittenReturnsConstructor | LanguageDetect.DetectLanguage |
