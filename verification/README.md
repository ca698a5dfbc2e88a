# Comment board — a Dafny model

The comment board is a single page. A visitor types a name and a message
and submits them. Comments are listed newest first. A search box narrows the
visible list to the comments whose author or message contains the query,
ignoring case. All state lives in one component: the list of comments, the
two draft fields and the search query.

The model has two modules.

- `Text` (`text.dfy`) models the three JavaScript string operations the page
  relies on. `Trim` is `String.prototype.trim`: it strips the ECMAScript
  WhiteSpace and LineTerminator characters from both ends. `ToLower` is
  `toLowerCase` (an approximation; see below). `Contains` is `includes`.
- `CommentBoard` (`board.dfy`) holds the page state as an immutable `Board`
  record and has these parts:
  - the guarded submit (`AddComment`) and the three input setters;
  - a user-event step function (`Step`, `Run`), with the invariant every
    reachable board keeps;
  - the search filter (`Filter`);
  - the render selector (`Render`), which picks one of three list states
    and decides whether the search box and the total count are shown.

A new comment's identifier and timestamp come from the clock and the locale.
They are plain parameters of `AddComment` and of the `Submit` event.

The search input is only on the page while some comment exists (line 83).
So a search edit on an empty board is not a possible event, and `Step`
ignores it. Because of this, every reachable board with a non-empty query
also has comments (`Valid`).

The source never makes comment identifiers unique. It uses the current
time in milliseconds, so two submits in the same millisecond get the same
identifier. The model follows the code and claims no uniqueness, although
each card uses the identifier as its React `key` (Index.tsx:101), which
React expects to be unique among siblings.

## Model

| member | source | states |
|---|---|---|
| Text.Trim | src/pages/Index.tsx:22 | the trimmed draft is the slice of the input with only whitespace on either side; it neither starts nor ends with whitespace; it is empty exactly when the input is blank |
| Text.TrimIdempotent | src/pages/Index.tsx:25-26 | trimming a stored (already trimmed) value again changes nothing |
| Text.LowerChar | src/pages/Index.tsx:37-38 | each capital of A-Z, А-Я and Ѐ-Џ becomes its own small letter, as read off the Latin and Cyrillic alphabets; the result is never one of those capitals; every other character is left as it is |
| Text.CaseRoundTrip | src/pages/Index.tsx:37-38 | folding a capital and raising it again gives the capital back, raising a small letter and folding it gives the small letter back, so a letter and its capital fold to the same character |
| Text.ToLower | src/pages/Index.tsx:37-38 | `toLowerCase` keeps the length and folds every character independently |
| Text.ToLowerOfToUpper | src/pages/Index.tsx:37-38 | upper-casing a string before lower-casing it makes no difference to the lower-cased result |
| Text.Contains | src/pages/Index.tsx:37-38 | `includes` is true for the empty query and false for a query longer than the string (its exact meaning is stated by `ContainsMeansOccurs`) |
| Text.ToLowerIdempotent | src/pages/Index.tsx:37-38 | lower-casing an already lower-cased string changes nothing |
| Text.ContainsMeansOccurs | src/pages/Index.tsx:37-38 | `includes` holds exactly when the query occurs in the string at some offset |
| Text.ContainsEmpty | src/pages/Index.tsx:35-39 | every string contains the empty query |
| CommentBoard.Initial | src/pages/Index.tsx:16-19 | the page starts with no comments, empty author and message drafts and an empty query, a board satisfying the invariant on which the submit button is disabled |
| CommentBoard.SubmitDisabled | src/pages/Index.tsx:74 | the submit button is disabled exactly when the author draft or the message draft is blank (consists only of whitespace, or is empty) |
| CommentBoard.AddComment | src/pages/Index.tsx:21-33 | with a blank trimmed author or message the board is unchanged; otherwise the list grows by one, the new comment is at index 0 with the given id and timestamp, its author and message are non-empty, trimmed slices of the drafts, the old list follows unchanged, both drafts are cleared and the query is kept |
| CommentBoard.SubmitStoresTrimmedDrafts | src/pages/Index.tsx:23-28 | the stored comment is exactly the trimmed author and message with the given id and timestamp |
| CommentBoard.SubmitEnabledIffEffective | src/pages/Index.tsx:74 | the submit button's enabled condition (the negation of the guard at line 22) holds exactly when the submit handler changes the board |
| CommentBoard.SetAuthor | src/pages/Index.tsx:62 | the author draft takes the typed value and nothing else changes |
| CommentBoard.SetMessage | src/pages/Index.tsx:68 | the message draft takes the typed value and nothing else changes |
| CommentBoard.SetSearchQuery | src/pages/Index.tsx:90 | the query takes the typed value and nothing else changes |
| CommentBoard.Step | src/pages/Index.tsx:62-90 | one user event (the author, message and search change handlers, or a click on submit) either leaves the comments alone or puts exactly one in front of them; the query only changes through a search edit, and only on a board with comments, since the search box is shown only then (line 83) |
| CommentBoard.Run | src/pages/Index.tsx:21-33 | after a sequence of events the list has at least the old comments and at most one more per event |
| CommentBoard.StepPreservesValid | src/pages/Index.tsx:21-33 | every user event keeps each stored comment non-empty and trimmed, and keeps a non-empty query only on a board with comments |
| CommentBoard.RunPreservesValid | src/pages/Index.tsx:22-26 | after any sequence of user events from a valid board, every stored author and message is non-empty and trimmed |
| CommentBoard.RunKeepsHistory | src/pages/Index.tsx:29 | after any sequence of user events the earlier comments are exactly the tail of the list: none is removed, edited or reordered |
| CommentBoard.Matches | src/pages/Index.tsx:36-38 | a comment matches exactly when the lower-cased query occurs at some offset in the lower-cased author or in the lower-cased message |
| CommentBoard.MatchesIgnoresCommentCase | src/pages/Index.tsx:37-38 | upper-casing a comment's author and message does not change whether it matches a query |
| CommentBoard.Filter | src/pages/Index.tsx:35-39 | every visible comment is a stored comment that matches the query, every matching stored comment is visible, and the visible list is no longer than the full list |
| CommentBoard.FilterSelectsMatchingPositions | src/pages/Index.tsx:35-39 | the visible list is the ordered subsequence of the comments taken at exactly the positions whose comment matches |
| CommentBoard.FilterEmptyQuery | src/pages/Index.tsx:35-39 | an empty query shows the full list, in order |
| CommentBoard.FilterIgnoresQueryCase | src/pages/Index.tsx:37-38 | a query gives the same visible list as its lower-cased form |
| CommentBoard.FilterAfterSubmit | src/pages/Index.tsx:29-39 | after a submit the visible list is the new comment (if it matches the query) followed by the previous visible list |
| CommentBoard.Render | src/pages/Index.tsx:83-139 | the card list shows exactly when the visible list is non-empty, and then shows that list; "not found" shows exactly when there are comments but none is visible; the empty placeholder shows exactly when there are no comments; the search box and the count show exactly when there are comments; the count is the number of all comments |
| CommentBoard.NonEmptyBoardShowsTotal | src/pages/Index.tsx:133-139 | a board with comments never shows the empty placeholder, whatever the query, and shows the search box and the total count |
| CommentBoard.FirstSubmitScenario | src/pages/Index.tsx:21-33 | typing a non-empty author and message that need no trimming (such as "Anna" and "Hello") on a fresh page and submitting stores exactly that one comment, and the count reads 1 |
| CommentBoard.AnnaHelloScenario | src/pages/Index.tsx:21-33 | typing "Anna" and "Hello" on a fresh page and submitting stores exactly that one comment, and the count reads 1 |
| CommentBoard.CaseInsensitiveSearchScenario | src/pages/Index.tsx:35-39 | the query "anna" finds Anna's comment and not Boris's |
| CommentBoard.NoMatchScenario | src/pages/Index.tsx:118-122 | the query "zzz" on a two-comment board shows "not found", keeps the search box and shows the count 2 |
| CommentBoard.EmptyBoardScenario | src/pages/Index.tsx:123-128 | a fresh page shows the empty placeholder, no search box and no count |

## Left out

- Layout, CSS classes and the `Card`, `Input`, `Textarea`, `Button` and
  `Icon` widgets. They are presentation only, over components outside this
  model.
- React's `useState` machinery and re-rendering. The state is an explicit
  immutable record, and each handler is a function from board to board.
- `Date.now().toString()` identifiers and `toLocaleString('ru-RU')`
  timestamps. They depend on the clock and the locale, so they are opaque
  parameters. Identifier uniqueness is not claimed because the code does not
  ensure it.
- The React `key` on each card, which only matters for DOM reconciliation.
- Text.LowerChar: folds only ASCII A-Z and the Cyrillic capitals U+0400 to
  U+042F, and leaves every other character unchanged. Full Unicode case
  mapping (other scripts, and mappings that change the string's length) is
  foreign library behaviour and is not modelled.
- Text.Trim: works on Unicode code points, whereas JavaScript strings are
  UTF-16 code units. Every whitespace character lies in the Basic
  Multilingual Plane, so the result is the same.
