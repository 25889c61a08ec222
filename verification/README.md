# Participation Hub — a Dafny model of the form and list logic

Participation Hub is a Next.js research-participation site. This project
models the parts of its client code that hold real logic, as pure Dafny
functions over immutable records, and proves properties of them:

- **The tag-input widget** (`components/ui/input-tags.tsx`). This is the
  box where researchers type comma-separated e-mail addresses to invite.
  - A commit splits the pending text at commas, trims each piece and
    checks every piece with the injected schema. It then either sets the
    first error or merges the pieces into the list as an ordered set union.
  - Enter and comma commit the pending text. Backspace on an empty text
    drops the last tag. A tag's button removes every occurrence of it.
  - A rendering window of 200 / +200 / +100 / reset-to-100 tags sits
    behind a "+N more" badge.
  - Modules: `TagStore`, `VisibleWindow`, `TagInput`.
- **The create-research invite list** (`app/admin/create/page.tsx`). It
  has add and remove, with no trimming and no validation. Module `EmailList`.
- **The two sidebars** (`components/admin-sidebar.tsx`,
  `components/sidebar.tsx`). Each decides which menu entries are
  highlighted for the current path. Modules `Menu`, `AdminSidebar`,
  `DashboardSidebar`.
- **The admin research list** (`app/admin/page.tsx`). It has a
  case-insensitive title search, an exact status filter and the first
  sentence of each description. Module `ResearchList`.
- **The date picker** (`components/date-picker.tsx`). A typed
  `dd/mm/yyyy` text is reversed, padded and re-joined into an RFC 3339
  `full-date` and parsed. A date chosen in the calendar is written back
  as `dd/mm/yyyy`. Module `DatePicker`.
- **The sign-up password schema** (`components/signup-form.tsx`). It
  has two length rules and one equality rule, their issue order, and the
  message each field shows. Module `SignUp`.

Supporting modules:

- `Common`: `Option` and `Outcome`.
- `Seqs`: `NoDup`, `Filter`, subsequences.
- `JsString`: the JavaScript string operations the code relies on.
  - `split` keeps empty pieces.
  - `trim` uses the ECMAScript white-space set.
  - `padStart` and `length` count UTF-16 code units.
  - `includes`.
  - ASCII `toLowerCase`.

Things outside these functions are parameters of the model:

- Scroll geometry enters as the booleans of `VisibleWindow.NearBottom`
  and `VisibleWindow.ContentFits`.
- The per-address e-mail check enters as a `Rule`.
- The current path enters as a string.

Points where the model follows the code rather than a looser description
of it:

- When the list shrinks below the window, the window falls back to
  `min(100, length)`. It is not clamped to the length.
- The window starts at 200 even for an empty list. The first
  length-change effect then sets it to `min(100, length)`.
- The auto-commit effect also runs again whenever the list changes. Its
  dependencies include the list.
- The participants dialog's reset button (`app/admin/[id]/participants.tsx`,
  line 44) empties only the list. The pending text and the error stay. This
  is `TagInput.Reset`.
- A study's status is the object `{ description }` in the source. The
  model keeps only the description string, which is all the filter and
  the badge read.
- The sign-up schema follows zod 4. A failed length rule does not stop
  the equality refinement, so a short but mismatched confirmation reports
  both issues. The field shows the first one.

## Model

| member | source | states |
|---|---|---|
| TagStore.AppendNew | components/ui/input-tags.tsx:86-87 | filling an insertion-ordered set keeps the old contents as a prefix, holds exactly the old values and the new ones, appends only values not already present, and stays duplicate-free |
| TagStore.Dedup | components/ui/input-tags.tsx:86-87 | `Array.from(new Set(s))` is duplicate-free and has the same members as `s` |
| TagStore.Union | components/ui/input-tags.tsx:86-87 | the committed list is duplicate-free and holds exactly the old tags and the new items |
| TagStore.AppendNewConcat | components/ui/input-tags.tsx:86 | spreading `[...value, ...items]` into the set is filling it with `value` and then with `items` |
| TagStore.AppendNewFresh | components/ui/input-tags.tsx:86-87 | new, distinct values are appended unchanged and in order |
| TagStore.DedupNoDup | components/ui/input-tags.tsx:86-87 | a duplicate-free list passes through the set unchanged |
| TagStore.UnionExtends | components/ui/input-tags.tsx:86-87 | for a duplicate-free list, the union keeps the list as a prefix and only appends |
| TagStore.UnionKeepsStore | components/ui/input-tags.tsx:86-87 | a duplicate-free list is a prefix of every union with it |
| TagStore.UnionFresh | components/ui/input-tags.tsx:86-87 | distinct fresh items are appended exactly as typed |
| TagStore.UnionIdempotent | components/ui/input-tags.tsx:86-87 | committing the same batch twice gives the list of one commit |
| TagStore.AppendNewPresent | components/ui/input-tags.tsx:86 | values already in the set add nothing |
| TagStore.AppendNewOrder | components/ui/input-tags.tsx:86-87 | appended values keep the order of their first occurrence in the batch |
| TagStore.Remove | components/ui/input-tags.tsx:130 | the remove button drops every occurrence of the value, keeps every other value and keeps their relative order |
| TagStore.RemoveAbsent | components/ui/input-tags.tsx:130 | removing a value that is not listed changes nothing |
| TagStore.RemoveAt | components/ui/input-tags.tsx:128-131 | in a duplicate-free list, removing the value at position k deletes exactly position k |
| TagStore.RemoveNoDup | components/ui/input-tags.tsx:130 | removal keeps the list duplicate-free |
| VisibleWindow.OnScroll | components/ui/input-tags.tsx:39-44 | the window grows exactly when the container is near the bottom and tags are left, by 200 or up to the list length, and never shrinks |
| VisibleWindow.OnFill | components/ui/input-tags.tsx:64-70 | the window grows exactly when the content fits and tags are left, by 100 or up to the list length, and never shrinks |
| VisibleWindow.ScrollGeometry | components/ui/input-tags.tsx:39-44 | a scroll grows the window exactly when fewer than 100 pixels lie below the viewport and tags are hidden |
| VisibleWindow.FillGeometry | components/ui/input-tags.tsx:64-70 | the fill check grows the window exactly when the content is no taller than the container and tags are hidden |
| VisibleWindow.OnLengthChange | components/ui/input-tags.tsx:52-56 | the window shrinks exactly when the list became shorter than it, and then to 100 or the list length, whichever is smaller |
| VisibleWindow.Overflow | components/ui/input-tags.tsx:137-140 | the badge is shown exactly when tags lie beyond the window, and its number plus the window is the list length |
| VisibleWindow.RenderedCount | components/ui/input-tags.tsx:118 | `slice(0, visibleCount)` renders the smaller of the window and the list length |
| VisibleWindow.WindowStaysWithinList | components/ui/input-tags.tsx:39-70 | once the window is inside the list, no effect takes it past the end, and the reset effect leaves it alone |
| VisibleWindow.ScrollTimesReaches | components/ui/input-tags.tsx:42-43 | n near-bottom scrolls show `min(v + 200n, length)` tags, so scrolling eventually shows the whole list and then changes nothing |
| VisibleWindow.Scenario250 | components/ui/input-tags.tsx:26 | with 250 tags the widget first shows 200 with a "+50 more" badge, and one scroll shows all 250 without a badge |
| TagInput.Mount | components/ui/input-tags.tsx:24-26 | a fresh widget has no pending text, no error and a window of 200 over the parent's list |
| TagInput.Items | components/ui/input-tags.tsx:77 | a text with k commas yields k+1 candidates, none containing a comma, none starting or ending with white space |
| TagInput.FirstFailing | components/ui/input-tags.tsx:80-82 | the index found is the first item the rule rejects, or the batch length if it rejects none |
| TagInput.Validate | components/ui/input-tags.tsx:79-85 | without a schema every batch passes; with one, a batch passes exactly when every item does, and a failure carries the message of the first failing item |
| TagInput.ValidateAndAdd | components/ui/input-tags.tsx:76-90 | a rejected batch only sets the error; an accepted one clears text and error and leaves a duplicate-free list with exactly the old tags and the new items, extending a duplicate-free list |
| TagInput.AddPending | components/ui/input-tags.tsx:98-102 | an empty text commits nothing; otherwise, when some item of the text fails the schema, the list and text are kept and the error is the first failing item's message, and when none fails the items are merged by set union and text and error are cleared |
| TagInput.AutoCommit | components/ui/input-tags.tsx:92-96 | a text without a comma is left alone; one with a comma is committed whole: rejected with the first failing item's message when some item fails, merged by set union with text and error cleared otherwise |
| TagInput.Type | components/ui/input-tags.tsx:145 | typing a text without a comma only replaces the text; typing one with a comma commits it at once, with the outcome the schema decides as for AutoCommit |
| TagInput.KeyDown | components/ui/input-tags.tsx:146-154 | Enter and comma commit a non-empty text, rejected with the first failing item's message when some item fails and merged by set union otherwise, and do nothing on an empty one; Backspace on an empty text drops exactly the last tag; other keys change nothing |
| TagInput.RemoveTag | components/ui/input-tags.tsx:128-131 | a tag's button removes that value, keeps every other tag in order and touches nothing else |
| TagInput.Rendered | components/ui/input-tags.tsx:118 | the rendered badges are a prefix of the list, as many as the window allows |
| TagInput.Settle | components/ui/input-tags.tsx:52-56 | the effects after a render: the length reset, the auto-commit, then the length reset again; its properties are SettleEstablishes and StepKeepsInvariant |
| TagInput.Step | components/ui/input-tags.tsx:128-153 | one event handled by its handler and followed by the effects; its invariant is StepKeepsInvariant |
| TagInput.CommitAllOrNothing | components/ui/input-tags.tsx:79-89 | a commit sets an error exactly when some item fails, and then adds nothing and keeps the text; otherwise it merges the whole batch |
| TagInput.AcceptedBatchAppends | components/ui/input-tags.tsx:86-87 | an accepted batch keeps the list as a prefix and appends exactly the new items, in their batch order |
| TagInput.AppendNewShape | components/ui/input-tags.tsx:86-87 | the set fill keeps the prefix, appends only new batch values, each new value once, in batch order |
| TagInput.NoSchemaAcceptsAll | components/ui/input-tags.tsx:79-89 | without a schema every batch is merged, even the empty piece left by a trailing comma |
| TagInput.ItemsOfJoin | components/ui/input-tags.tsx:77 | a comma-joined text splits back into its pieces, each trimmed |
| TagInput.ItemsOfPlainJoin | components/ui/input-tags.tsx:77 | plain addresses joined with commas come back unchanged as the candidates |
| TagInput.PlainItemsTrimmed | components/ui/input-tags.tsx:77 | trimming each of a list of plain addresses changes none of them |
| TagInput.CommitFreshBatch | components/ui/input-tags.tsx:146-149 | typing distinct valid addresses comma-joined into an empty widget and pressing Enter lists exactly them, in order |
| TagInput.EnterCommits | components/ui/input-tags.tsx:147-149 | Enter on a non-empty text is the commit of that text |
| TagInput.PassCommits | components/ui/input-tags.tsx:86-89 | a passing batch is merged by set union and clears text and error |
| TagInput.TwoItems | components/ui/input-tags.tsx:77 | "x,y" for plain x and y holds a comma and yields the candidates x and y |
| TagInput.CommitTwoFresh | components/ui/input-tags.tsx:92-96 | typing "a,b" into an empty list lists a then b |
| TagInput.UnionPairFresh | components/ui/input-tags.tsx:86-87 | two distinct values merged into an empty list are listed in order |
| TagInput.TypedPairMerges | components/ui/input-tags.tsx:92-96 | typing "x,y" with both valid merges both into the list and clears the error |
| TagInput.TypedCommits | components/ui/input-tags.tsx:92-96 | typing a text with a comma is the commit of that whole text |
| TagInput.CommitOneNew | components/ui/input-tags.tsx:86-87 | committing "a,c" into [a, b] appends only c |
| TagInput.UnionOneNew | components/ui/input-tags.tsx:86-87 | the ordered union of [a, b] and [a, c] is [a, b, c] |
| TagInput.CommitTwiceScenario | components/ui/input-tags.tsx:86-96 | "a,b" then "a,c" lists a, b, c with a only once |
| TagInput.RejectText | components/ui/input-tags.tsx:77 | the text "a, bad, c" is the comma join of its raw pieces |
| TagInput.RejectItems | components/ui/input-tags.tsx:77 | "a, bad, c" yields exactly three candidates: a, bad and c, in that order |
| TagInput.RejectScenario | components/ui/input-tags.tsx:79-84 | "a, bad, c" with bad invalid adds nothing, keeps the text and shows bad's message |
| TagInput.SecondItemFails | components/ui/input-tags.tsx:80-84 | a batch whose first item passes and whose second fails is rejected with the second item's message |
| TagInput.PlainTrim | components/ui/input-tags.tsx:77 | trimming leaves a plain address alone |
| TagInput.TrimLeadingSpace | components/ui/input-tags.tsx:77 | trimming drops the space after a comma |
| TagInput.AutoCommitIdempotent | components/ui/input-tags.tsx:92-96 | re-running the auto-commit effect after it has run changes nothing more |
| TagInput.RemoveTagAt | components/ui/input-tags.tsx:128-131 | removing the tag at position k deletes exactly that position |
| TagInput.SettleEstablishes | components/ui/input-tags.tsx:52-56 | after the effects run, a duplicate-free list has its window inside it |
| TagInput.HandlerKeepsNoDup | components/ui/input-tags.tsx:128-153 | typing, keys and the remove button keep the list duplicate-free |
| TagInput.StepKeepsInvariant | components/ui/input-tags.tsx:39-153 | every event followed by its effects keeps the list duplicate-free with the window inside it |
| TagInput.RunKeepsInvariant | components/ui/input-tags.tsx:39-153 | any sequence of events keeps that invariant |
| TagInput.MountEstablishes | components/ui/input-tags.tsx:26 | mounting over a duplicate-free list establishes the invariant, and a list shorter than 200 starts with a window of `min(100, length)` |
| EmailList.SetInput | app/admin/create/page.tsx:86 | typing changes only the input box |
| EmailList.AddEmail | app/admin/create/page.tsx:19-24 | adding appends at most one entry, the input exactly when it is non-empty and new, and clears the box only when it added; an empty or already listed input leaves the form unchanged |
| EmailList.RemoveEmail | app/admin/create/page.tsx:26-28 | removal drops that address, keeps every other one in order and leaves the box alone |
| EmailList.AddKeepsNoDup | app/admin/create/page.tsx:20 | adding keeps the list duplicate-free |
| EmailList.ApplyKeepsNoDup | app/admin/create/page.tsx:19-28 | every user action keeps the list duplicate-free |
| EmailList.RunKeepsNoDup | app/admin/create/page.tsx:19-28 | any sequence of actions keeps the list duplicate-free |
| EmailList.RemoveAt | app/admin/create/page.tsx:26-28 | removing the entry at position k deletes exactly that position |
| EmailList.NoTrimming | app/admin/create/page.tsx:20-21 | an address and the same address with a trailing space are both listed |
| Menu.ActiveTitles | components/sidebar.tsx:68-72 | the highlighted titles are exactly those of entries whose url the rule accepts |
| Menu.PrefixesNest | components/sidebar.tsx:69 | two prefixes of one path are prefixes of each other |
| AdminSidebar.ActiveIff | components/admin-sidebar.tsx:84-86 | an exempt url is highlighted only on its own path; any other url on every path it prefixes |
| AdminSidebar.IsActive | components/admin-sidebar.tsx:84-86 | the highlight rule as written, over the menu table of lines 32-43; ActiveIff states its meaning |
| AdminSidebar.MyResearchPaths | components/admin-sidebar.tsx:32-43 | as written, "My Research" is highlighted exactly on the paths that start with "/admin/" |
| AdminSidebar.CorrectedMyResearchPaths | components/admin-sidebar.tsx:84-86 | with the corrected link, "My Research" is highlighted on "/admin" and nowhere else |
| AdminSidebar.StudyPage | app/admin/page.tsx:113 | a study page "/admin/42", linked from the research list, highlights "My Research" as written and nothing with the corrected link |
| AdminSidebar.CreateImpliesMyResearch | components/admin-sidebar.tsx:32-43 | with the menu as written, "Create Research" is never highlighted without "My Research" |
| AdminSidebar.CreatePathHighlightsBoth | components/admin-sidebar.tsx:32-43 | as written, the create page highlights both entries |
| AdminSidebar.RootPathHighlightsNone | components/admin-sidebar.tsx:84-86 | as written, the research list at "/admin" highlights nothing |
| AdminSidebar.CorrectedAtMostOne | components/admin-sidebar.tsx:84-86 | with "My Research" linked to "/admin", every path highlights at most one entry |
| AdminSidebar.CorrectedOwnPaths | components/admin-sidebar.tsx:32-43 | with the corrected link, each page highlights its own entry alone |
| DashboardSidebar.ActiveIff | components/sidebar.tsx:69 | Home is highlighted only on "/dashboard"; any other url on every path it prefixes |
| DashboardSidebar.IsActive | components/sidebar.tsx:69 | the highlight rule as written, over the menu table of lines 24-45; ActiveIff states its meaning |
| DashboardSidebar.NoSegmentBoundary | components/sidebar.tsx:69 | matching is on characters, not path segments: "/dashboard/collections42" highlights "My Collections" |
| DashboardSidebar.UrlsDoNotNest | components/sidebar.tsx:24-45 | no url of the menu other than Home's is a prefix of another |
| DashboardSidebar.AtMostOneActive | components/sidebar.tsx:24-69 | for every path, at most one entry of the menu is highlighted |
| ResearchList.Shown | app/admin/page.tsx:105-111 | the shown studies are the table's studies that match the search and the status, in table order, and all such studies are shown |
| ResearchList.Matches | app/admin/page.tsx:107-110 | the filter predicate as written; Shown, ShownTitlesContainTerm and StatusFilterIsExact state its meaning |
| ResearchList.ShownTitlesContainTerm | app/admin/page.tsx:108 | every shown title contains the search term, both lower-cased |
| ResearchList.SearchIgnoresCase | app/admin/page.tsx:108 | a search term and its lower-cased form show the same studies |
| ResearchList.StatusFilterIsExact | app/admin/page.tsx:109-110 | a filter other than "all" shows only studies whose lower-cased status equals it |
| ResearchList.AllPlacesNoConstraint | app/admin/page.tsx:109 | the "all" filter leaves only the search to decide |
| ResearchList.EmptySearchShowsAll | app/admin/page.tsx:62-63 | the initial empty search with "all" shows every study in order |
| ResearchList.FirstSentence | app/admin/page.tsx:119 | the card text is a prefix of the description with no ". " in it, and it ends at the first ". " or at the end |
| ResearchList.SentenceStep | app/admin/page.tsx:119 | the first-sentence property carries from the tail of a text to the whole text |
| ResearchList.FirstSentenceOfJoin | app/admin/page.tsx:119 | a sentence without ". " followed by ". " and more is shown alone |
| ResearchList.EmptySearchStatusOnly | app/admin/page.tsx:105-111 | with an empty search only the status filter decides |
| ResearchList.ActiveFilterOnTable | app/admin/page.tsx:12-53 | the "active" filter over the page's table shows its first two studies |
| ResearchList.ActiveFilterOfFour | app/admin/page.tsx:109-110 | two "Active" studies ahead of two "Completed" ones: "active" keeps the first two |
| ResearchList.ActiveLower | app/admin/page.tsx:55-59 | the status "Active" lower-cases to the option value "active" |
| Seqs.Filter | app/admin/page.tsx:106 | `filter` keeps exactly the passing elements, in order |
| Seqs.FilterCount | app/admin/create/page.tsx:27 | `filter` keeps every copy of a passing value and no copy of a failing one |
| Seqs.FilterAll | app/admin/page.tsx:106 | a filter everything passes is the identity |
| Seqs.FilterNoDup | components/ui/input-tags.tsx:130 | filtering keeps a duplicate-free list duplicate-free |
| Seqs.FilterCongruent | app/admin/page.tsx:106-111 | filters agreeing on every element give the same result |
| JsString.Utf16Length | components/signup-form.tsx:19-20 | a string's length counts UTF-16 code units: between one and two per character, exactly the character count when every character is in the basic plane, and more than it when some character lies beyond |
| JsString.Utf16LengthChar | components/signup-form.tsx:19-20 | one character counts 2 code units beyond U+FFFF and 1 otherwise |
| JsString.Split | components/ui/input-tags.tsx:77 | splitting at k separators gives k+1 pieces, none containing the separator |
| JsString.JoinSplit | components/date-picker.tsx:56-59 | joining the pieces of a split with the same separator gives the text back |
| JsString.SplitJoin | components/date-picker.tsx:56-59 | splitting a join of separator-free pieces gives the pieces back |
| JsString.SplitPrefix | components/ui/input-tags.tsx:77 | a text is split at its first separator into that piece and the split of the rest |
| JsString.TrimStart | components/ui/input-tags.tsx:77 | the result is a suffix, everything dropped is white space, and it does not start with white space |
| JsString.TrimEnd | components/ui/input-tags.tsx:77 | the result is a prefix, everything dropped is white space, and it does not end with white space |
| JsString.Trim | components/ui/input-tags.tsx:77 | the trimmed piece is the infix left after removing white space at both ends only: everything before and after it is white space, it neither starts nor ends with white space, and a piece without white space is unchanged |
| JsString.TrimBothEnds | components/ui/input-tags.tsx:77 | dropping leading white space and then trailing white space leaves an infix with only white space outside it |
| JsString.AsciiLower | app/admin/page.tsx:108 | lower-casing keeps the length, moves each of `A`–`Z` to its lower-case letter (32 code points on) and leaves every other character unchanged |
| JsString.AsciiLowerIdempotent | app/admin/page.tsx:108 | lower-casing twice is lower-casing once |
| JsString.IncludesAt | app/admin/page.tsx:108 | `includes` holds exactly when the term occurs at some position |
| JsString.IncludesEmpty | app/admin/page.tsx:108 | every string includes the empty term |
| JsString.PadStart2 | components/date-picker.tsx:58 | `padStart(2, "0")` leaves a piece of length 2 or more alone and otherwise prefixes zeros up to length 2 |
| DatePicker.DaysInMonth | components/date-picker.tsx:54 | April, June, September and November have 30 days; January, March, May, July, August, October and December 31; February 29 exactly in a Gregorian leap year and 28 otherwise |
| DatePicker.ParseFullDate | components/date-picker.tsx:54-65 | a string accepted as a full date reads as a real calendar date |
| DatePicker.IsFullDate | components/date-picker.tsx:54 | the `full-date` test as written; FullDateRoundTrip and ParseFullDateRoundTrip state its meaning |
| DatePicker.FullDateRoundTrip | components/date-picker.tsx:54-65 | a written date is accepted exactly when it is a real calendar date, and then reads back as that date |
| DatePicker.ParseFullDateRoundTrip | components/date-picker.tsx:54-65 | an accepted string is exactly the writing of the date it reads as |
| DatePicker.FixedDigitsValue | components/date-picker.tsx:58 | a number written in fixed width reads back as itself |
| DatePicker.DigitsRoundTrip | components/date-picker.tsx:58 | a digit string is the fixed-width writing of its value |
| DatePicker.DigitsBound | components/date-picker.tsx:58 | a digit string of width w denotes less than 10^w |
| DatePicker.Reverse | components/date-picker.tsx:57 | `reverse` keeps the length and mirrors the positions |
| DatePicker.PadAll | components/date-picker.tsx:58 | each segment is padded to two code units, one for one |
| DatePicker.PadAllLong | components/date-picker.tsx:58 | segments of two or more code units are not padded |
| DatePicker.NormaliseSegments | components/date-picker.tsx:55-59 | for a text without '-', the normalised text's '-' pieces are the reversed, padded '/' pieces, as many as typed |
| DatePicker.Normalise | components/date-picker.tsx:55-59 | the rewrite as written; NormaliseSegments, NormaliseFormatted and NormaliseShortFields state its meaning |
| DatePicker.OnTyped | components/date-picker.tsx:52-69 | the typed text is always kept; the value is set exactly when the normalised text is a valid full date, and then it is that date and the calendar moves to it; otherwise the value is cleared and the calendar stays |
| DatePicker.FormatDate | components/date-picker.tsx:13-23 | no date writes the empty text |
| DatePicker.Numeral | components/date-picker.tsx:21 | a year is written as a non-empty run of digits |
| DatePicker.NumeralFourDigits | components/date-picker.tsx:21 | a year from 1000 to 9999 is written in exactly four digits |
| DatePicker.OnSelect | components/date-picker.tsx:94-98 | picking a date sets the value to it and leaves the displayed month; clearing it empties the text |
| DatePicker.FormattedSegments | components/date-picker.tsx:13-23 | a written date splits at '/' into day, month and year |
| DatePicker.NormaliseFormatted | components/date-picker.tsx:13-59 | normalising the `dd/mm/yyyy` writing of a date gives its RFC 3339 writing |
| DatePicker.NormaliseThreeRuns | components/date-picker.tsx:55-59 | a text splitting at '/' into three digit runs of two or more digits is rewritten as the runs in reverse order joined by '-' |
| DatePicker.NormaliseShortFields | components/date-picker.tsx:55-59 | a one-digit day and month are padded with a zero: "5/3/2024" normalises to "2024-03-05" |
| DatePicker.TypedFormattedDate | components/date-picker.tsx:13-69 | retyping the text written for a date gives that date back exactly when it is a real calendar date |
| DatePicker.SelectThenRetype | components/date-picker.tsx:52-98 | after picking a real date (year 1000 or later), retyping the text it shows yields the same date |
| SignUp.Check | components/signup-form.tsx:17-25 | the form has no issues exactly when both entries have 8 or more code units and are equal; each rule's issue is present exactly when it is broken, and issues come in the schema's rule order: password length, confirmation length, equality |
| SignUp.FieldError | components/signup-form.tsx:33 | a field shows nothing exactly when no issue is on its path, and otherwise the first issue on its path |
| SignUp.PasswordFieldError | components/signup-form.tsx:19 | the password field shows only the length message, exactly when the password is too short |
| SignUp.ConfirmFieldError | components/signup-form.tsx:20-25 | the confirmation field shows its length message first and the mismatch only when it is long enough |
| SignUp.OnlyMismatch | components/signup-form.tsx:22-25 | two long enough, different entries give the single mismatch issue, on the confirmation |
| SignUp.Submitted | components/signup-form.tsx:40-41 | sign-up receives a password exactly when the form is accepted, and that password equals the confirmation and has 8 or more code units |

## Left out

- Rendering, focus handling, the avatar initial, class names and layout of every component: they decide nothing the properties talk about.
- Timers: the fill check runs after `setTimeout(…, 0)`. The model treats it as an event that may come at any point.
- Listener setup and teardown. React re-runs the effects with fresh closures, and the model folds that into transitions of one state.
- Scroll geometry: the container's heights are reduced to the booleans `NearBottom` and `ContentFits`.
- The e-mail schema (`z.email`) is a parameter `Rule`. Its internal syntax rules are zod's, not this repository's.
- `TagInput.Validate`: gives the message of the first failing item as one value per item. It does not model zod's list of several issues for one item.
- `JsString.AsciiLower`: lowers only `A`–`Z`. Unicode case mapping of other letters is left out.
- `DatePicker.OnTyped`: models `new Date(result.data)` as the calendar date itself. Time zones, and the UTC-midnight shift that `new Date("yyyy-mm-dd")` brings, are left out.
- `DatePicker.FormatDate`: models `toLocaleDateString("en-GB")` as `dd/mm/` followed by the year's decimal digits. Locale data and years before 1000 (which are written with fewer digits and do not round-trip) are left out.
- `DatePicker.NormaliseSegments`: assumes the typed text holds no '-'. A '-' typed by the user would merge with the separators.
- Writable years: the date record is bounded to four-digit years, as RFC 3339 section 5.6 `full-date` is.
- The `createdAt` field of studies: the list never reads it.
- The authentication context, the API query layer, routing, redirects, the log-in form and the static pages: they are not part of this model.
- The sign-up call itself: `signUp` talks to the back end and shows toasts, so the model stops at the password it is given.

## Findings

| source | as written | input that shows it | evidently intended | confidence | as-written member | corrected member |
|---|---|---|---|---|---|---|
| components/admin-sidebar.tsx:32-43 | "My Research" links to "/admin/", while the highlight rule exempts "/admin" from prefix matching; the pathname never ends in "/" | pathname "/admin/create" highlights both "My Research" and "Create Research"; pathname "/admin" highlights none | "My Research" links to "/admin", so each page highlights exactly its own entry; the study pages "/admin/<id>" linked at app/admin/page.tsx:113 then highlight nothing, where as written they highlight "My Research" | medium, not executed | AdminSidebar.CreatePathHighlightsBoth | AdminSidebar.CorrectedAtMostOne |
