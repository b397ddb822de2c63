# Father's advice — a Dafny model of its rules

The application lets a father write advice for his child. Each piece of
advice is meant for a target age and has a category, and may carry media. The
child reads the advice, marks it read and stars favourites. This project
models in Dafny the rules that the code applies. It proves properties of
those rules.

- **Backend** (`advice-backend/main.py`): the FastAPI endpoints, written as
  pure functions over an in-memory `Store` of user rows and advice rows.
  These are registration, creating advice, listing, reading one advice,
  marking it read, toggling its favourite flag, and the statistics. Each
  function returns either the error the endpoint raises (400/403/404) or its
  result and the new store.
- **Media URL clean-up** (`advice-backend/main_fixed.py`, lines 18-40): the
  fixed `get_advice` tidies `media_url` before returning the advice. It
  strips whitespace, drops trailing semicolons and strips again. Then it
  rewrites the slashes after `/advice-media/` so that one or two slashes
  become exactly two.
- **Frontend** (`advice-frontend/src/components`):
  - the two dashboards' list state and filters, their counters, and the
    click and star handlers;
  - the advice form's validation, normalisation and reset;
  - the card's and the modal's category lookups, media choice and
    viewer-dependent phrasing.

Python's `str.strip` and `str.replace` and JavaScript's `String.prototype.trim`
are modelled in `Text`:

- One trim is parametrised by the whitespace predicate. Python's `isspace`
  set and JavaScript's WhiteSpace/LineTerminator set differ and are both
  written out.
- `Replace` is Python's leftmost, non-overlapping replacement.

Module layout: `Wrappers` (Option, Result), `Seqs` (filter, subsequence,
table lookup), `Text`, `Backend`, `MediaUrl`, `ClientAdvice` (the
frontend's advice record), `AdviceCard`, `AdviceModal`, `AdviceForm`,
`FatherDashboard`, `ChildDashboard`.

Modelling choices:

- **Values passed in as parameters.** The code takes these from outside, so
  the model takes them as parameters: the new advice id, the date, the
  bcrypt hash, the parsed target age (`parseInt`) and the child's current
  age. The current age is hard-coded to 25 at `main.py:339` and
  `ChildDashboard.tsx:26`.
- **Free strings and truthiness.** `user_type` is a free string, because
  registration does not validate it. `father_id` is `Option<string>`, and it
  is "truthy" when present and non-empty.
- **Which rows an id selects.** A lookup by id takes the first row with that
  id, as `response.data[0]` does. An update by id changes every row with that
  id, as `.update(...).eq("id", ...)` does.
- **Toggling the favourite flag.** Toggling writes `not first.is_favorite` to
  every matching row. So toggling twice restores the store only when advice
  ids are unique, and the lemma requires that.
- **Scope of a child with no father.** The code runs
  `eq("author_id", None)`. The model gives such a child an empty scope: no
  advice has a `None` author.
- **Order of checks in the fixed `get_advice`.** The fragment in
  `main_fixed.py` shows the lookup and the clean-up but not the access
  check. The model runs the access check of `main.py:253-259` first.
  Cleaning touches neither `id` nor `author_id`, so the order changes no
  outcome; `MediaUrl.GetAdviceCleaned` states that its errors are exactly
  those of `GetAdvice`.
- **No age gate on opening.** The child's "available" and "future" views
  are filtered by age and the "favorites" view by the star alone. Opening an
  advice marks it read whatever its target age (`ChildDashboard.NoAgeGate`).

Behaviour the lemmas expose:

- **A semicolon can survive the clean-up.** The semicolon loop runs between
  the two strips, so a semicolon followed by a space survives. `"a; ;"`
  becomes `"a;"` (`MediaUrl.SemicolonCanSurvive`).
- **Long slash runs are not reduced.** Three or four slashes after the bucket
  segment stay as they are: the first replacement removes one slash and the
  second adds it back (`MediaUrl.LongSlashRunsStay`). Only one and two
  slashes are brought to two (`MediaUrl.CleanNormalisesSegment`).
- **No range check on the target age.** The form's 0-100 range is only an
  input attribute. The submit handler accepts 150 or -1
  (`AdviceForm.NoAgeRangeCheck`).
- **The modal shows the advice as it was clicked.** The child's click
  handler marks the advice read in the list. The modal gets the record as it
  was before that update.

## Model

| member | source | states |
|---|---|---|
| Backend.Status | advice-backend/main.py:133-310 | The two registration errors are raised with 400, an unknown advice id with 404, and the role and scope refusals with 403. |
| Backend.Register | advice-backend/main.py:128-164 | A taken user id fails with 400 first, and only a taken id gives that error. A child with a truthy father id fails with 400 exactly when no father row with that id exists. Otherwise one row (id, hash, type, name, father id) is appended and the advices are untouched. |
| Backend.RegisterKeepsUserIdsUnique | advice-backend/main.py:131-153 | Registration keeps user ids unique in the store. |
| Backend.CanAccess | advice-backend/main.py:253-259 | The per-advice access rule admits exactly the advices of the listing's author scope: own id for a father, father id for anyone else. A non-father without a father id may access nothing. |
| Backend.CreateAdvice | advice-backend/main.py:192-214 | Fails with 403 exactly when the caller is not a father, and with no other error. Otherwise it appends one advice: authored by the caller, with the input's category, age and content, unread, not favourite, no media. |
| Backend.CreatedAdviceIsAccessible | advice-backend/main.py:197-207 | A father can read back, in the new store, the advice he just created. |
| Backend.FindAdvice | advice-backend/main.py:246-251 | Absent exactly when no row has the id; otherwise the first row with that id. |
| Backend.CheckAccess | advice-backend/main.py:246-259 | 404 exactly when no row has the id. 403 exactly when the first such row is outside the caller's scope. Otherwise the index of that first row, which the caller may access. No other error. |
| Backend.CheckAccessUnique | advice-backend/main.py:246-259 | With unique ids, asking for row i's id yields row i or 403, according to access. |
| Backend.GetAdvice | advice-backend/main.py:241-261 | Returns the first stored advice with the requested id, which the caller may access; the errors are those of the access check. |
| Backend.SetReadWhere | advice-backend/main.py:285 | Sets the read flag on exactly the rows with the id; length, order and all other fields stay. |
| Backend.MarkAdviceAsRead | advice-backend/main.py:263-290 | Fails exactly when the access check fails, with its error. Otherwise the users stay and every row with the id becomes read. |
| Backend.MarkAdviceAsReadIdempotent | advice-backend/main.py:263-290 | Marking read twice gives the store of marking once. |
| Backend.SetFavoriteWhere | advice-backend/main.py:313-314 | Writes the favourite value to exactly the rows with the id; everything else stays. |
| Backend.ToggleAdviceFavorite | advice-backend/main.py:292-319 | 404 for an unknown id, then 403 for a non-child (and only for a non-child), then 403 outside the father's scope; a child asking for an advice of their father succeeds, and no other error occurs. Otherwise every row with the id gets the negation of the first row's flag, and the new state is reported. |
| Backend.ToggleTwiceRestores | advice-backend/main.py:312-314 | With unique advice ids, toggling twice restores the store. |
| Backend.Listed | advice-backend/main.py:224-235 | An advice is listed exactly when it is accessible, has the category when a truthy category is given, and has the target age when a truthy target age is given. |
| Backend.FilteredListingNarrowsUnfiltered | advice-backend/main.py:222-235 | A filtered listing is the unfiltered listing narrowed by the category and target-age conditions, in the same order. |
| Backend.GetAdvices | advice-backend/main.py:216-239 | The listing is an order-preserving subsequence of the advices. It holds exactly those in the caller's scope that match a truthy category and a truthy target age, each with its multiplicity in the store. |
| Backend.UnfilteredListingIsAccessible | advice-backend/main.py:224-235 | Without truthy filters the listing is exactly the caller's accessible advices. |
| Backend.ZeroTargetAgeIgnored | advice-backend/main.py:234-235 | A target age of 0 is falsy and filters nothing. |
| Backend.ScopedAdvices | advice-backend/main.py:323-336 | The advices the statistics count are exactly the accessible ones, each with its multiplicity in the store. |
| Backend.GetStats | advice-backend/main.py:321-350 | Father statistics exactly for a father: total, read and unread count the scope and its read and unread parts, with read + unread = total. For anyone else: available, future and favourites count the due, not-yet-due and starred advices in scope, available + future = total in scope, favourites at most that total, and the age passed in is echoed. |
| Backend.ChildFavoritesIgnoreAge | advice-backend/main.py:341-343 | The favourite count splits into due and not-yet-due favourites. |
| Backend.ScopeIsUnfilteredListing | advice-backend/main.py:321-336 | The advices the statistics count are exactly the unfiltered listing. |
| Backend.FatherTotalIsListingSize | advice-backend/main.py:321-330 | A father's total is the length of his unfiltered listing. |
| Backend.CreateCountsAsUnread | advice-backend/main.py:321-330 | After a father creates an advice, his total and unread counts rise by one and his read count stays. |
| Text.PyStrip | advice-backend/main_fixed.py:26 | The result is a slice of the input with only whitespace cut from each side, and has no whitespace at either end. |
| Text.JsTrim | advice-frontend/src/components/AdviceForm.tsx:31 | The result is a slice of the input with only whitespace cut from each side, has none at either end, and is empty exactly for a blank input. |
| Text.TrimOfTrimmed | advice-backend/main_fixed.py:30 | Trimming an already trimmed string changes nothing. |
| Text.Replace | advice-backend/main_fixed.py:35-37 | Python's `str.replace`: the result is as long as the input when pattern and replacement have the same length, no shorter when the replacement is longer, no longer when it is shorter, and equal to the input when the two are equal. |
| Text.ReplaceAtFirst | advice-backend/main_fixed.py:35-37 | The first occurrence of the pattern is replaced, the text before it is kept, and replacement resumes right after it. |
| Text.ReplaceAbsent | advice-backend/main_fixed.py:35-37 | With no occurrence of the pattern the input comes back unchanged. |
| Text.ReplaceKeepsTrimmed | advice-backend/main_fixed.py:35-37 | Replacing with a text that has no whitespace at its ends keeps a trimmed string trimmed. |
| MediaUrl.DropTrailingSemicolons | advice-backend/main_fixed.py:28-29 | The result is a prefix of the input that does not end in a semicolon; every removed character is a semicolon. |
| MediaUrl.RewriteSlashes | advice-backend/main_fixed.py:33-37 | A URL without the bucket segment is left alone, and the rewriting adds no whitespace at either end. |
| MediaUrl.CleanUrl | advice-backend/main_fixed.py:26-37 | The cleaned URL has no whitespace at either end. |
| MediaUrl.CleanAdviceMedia | advice-backend/main_fixed.py:24-40 | An advice with a falsy URL is returned unchanged. Otherwise only `media_url` changes, and it becomes the cleaned form of the old URL, which is trimmed. |
| MediaUrl.GetAdviceCleaned | advice-backend/main_fixed.py:18-40 | Same errors as the unfixed endpoint. On success it returns the advice of the unfixed endpoint with its media cleaned: accessible, with the requested id, differing at most in `media_url`. |
| MediaUrl.NoSegmentNoRewrite | advice-backend/main_fixed.py:33-37 | Without the bucket segment no slash is rewritten. |
| MediaUrl.CleanOfTidy | advice-backend/main_fixed.py:26-30 | A URL with no outer whitespace and no trailing semicolon only goes through the slash rewriting. |
| MediaUrl.SemicolonCanSurvive | advice-backend/main_fixed.py:26-30 | `"a; ;"` cleans to `"a;"`: a semicolon before a space survives. |
| MediaUrl.RewriteOneSlash | advice-backend/main_fixed.py:33-37 | One slash after the only bucket segment becomes two. |
| MediaUrl.RewriteTwoSlashes | advice-backend/main_fixed.py:33-37 | Two slashes after the only bucket segment stay two. |
| MediaUrl.CleanNormalisesSegment | advice-backend/main_fixed.py:24-40 | A tidy URL with one segment and one or two slashes cleans to the two-slash form, and cleaning that again changes nothing. |
| MediaUrl.LongSlashRunsStay | advice-backend/main_fixed.py:32-37 | Three slashes after the segment are left as three and four as four, although the rewriting is meant to prevent four. |
| AdviceCard.CategoryEmoji | advice-frontend/src/components/AdviceCard.tsx:13-26 | The fallback emoji appears exactly for a category outside the table; a known category gets its own table entry. |
| AdviceCard.CategoryName | advice-frontend/src/components/AdviceCard.tsx:28-41 | The category itself comes back exactly when it is not in the table; a known category gets its own label. |
| AdviceCard.TablesShareKeys | advice-frontend/src/components/AdviceCard.tsx:14-39 | The emoji and name tables have the same nine keys, in the same order, each once. |
| AdviceCard.KnownCategoryLookup | advice-frontend/src/components/AdviceCard.tsx:13-41 | Each of the nine keys is mapped to its own entry by both lookups. |
| AdviceCard.MediaBlockOf | advice-frontend/src/components/AdviceCard.tsx:83-162 | No media block exactly when `media_url` is falsy. Otherwise an image for type "image", a video for "video" and an attachment for anything else, all showing the URL. |
| AdviceCard.RenderCard | advice-frontend/src/components/AdviceCard.tsx:55-175 | Star control exactly for a child with a toggle handler, a filled star for a favourite and an empty one otherwise. Badge exactly for a child's favourite. Emoji, name, age, content and date from the advice, and the media block chosen for it. |
| AdviceModal.CategoryEmoji | advice-frontend/src/components/AdviceModal.tsx:12-25 | Agrees with the card's lookup on every input. |
| AdviceModal.CategoryName | advice-frontend/src/components/AdviceModal.tsx:27-40 | Agrees with the card's lookup on every input. |
| AdviceModal.ModalAgreesWithCard | advice-frontend/src/components/AdviceModal.tsx:12-40 | The modal's lookups fall back exactly for categories outside the card's tables. |
| AdviceModal.RenderModal | advice-frontend/src/components/AdviceModal.tsx:63-100 | The recipient phrase is "우리 아이" for a father and "나" for a child, and the footer is "아이에게 전하는 아버지의 마음" for a father and "아버지가 전하는 특별한 메시지" for a child; emoji, name, age, content and date come from the advice. |
| AdviceModal.ViewersDifferOnlyInPhrasing | advice-frontend/src/components/AdviceModal.tsx:68-100 | Father and child see the same modal apart from the recipient phrase and the footer, and those differ. |
| AdviceForm.HandleSubmit | advice-frontend/src/components/AdviceForm.tsx:28-44 | Rejects exactly an empty age or a blank content, and a rejection changes nothing. Otherwise it sends the category, the parsed age and the trimmed, non-empty content, then clears age and content but keeps the category. |
| AdviceForm.SubmitDisabled | advice-frontend/src/components/AdviceForm.tsx:116 | The submit button is disabled exactly when the age is empty or the content is blank. |
| AdviceForm.DisabledExactlyWhenRejected | advice-frontend/src/components/AdviceForm.tsx:116 | The submit button is disabled exactly when the handler would reject. |
| AdviceForm.NoAgeRangeCheck | advice-frontend/src/components/AdviceForm.tsx:31-37 | Ages 150 and -1 are accepted by the handler. |
| AdviceForm.Step | advice-frontend/src/components/AdviceForm.tsx:68 | A category button sets that button's key; no other event changes the category. |
| AdviceForm.CategoryAlwaysAKey | advice-frontend/src/components/AdviceForm.tsx:11-24 | From a listed key, any sequence of events leaves the category one of the nine keys. |
| AdviceForm.DraftCategoryIsKnown | advice-frontend/src/components/AdviceForm.tsx:11-37 | Every draft sent from the initial state carries a category the card's tables know, so its card never shows a fallback. |
| AdviceForm.ButtonsFollowCardTables | advice-frontend/src/components/AdviceForm.tsx:11-21 | The nine buttons list the card's keys in its order, each label being the card's emoji, a space and the card's name. |
| AdviceForm.LabelsMatchCard | advice-frontend/src/components/AdviceForm.tsx:11-21 | Each button label equals the card's emoji lookup, a space and its name lookup for that key. |
| FatherDashboard.Stamp | advice-frontend/src/components/FatherDashboard.tsx:69-76 | The id, date, both flags and the author are overwritten whatever the input carried; every other field comes from the input. |
| FatherDashboard.AddAdvice | advice-frontend/src/components/FatherDashboard.tsx:68-78 | The list grows by one: the stamped advice in front, the previous list unchanged behind it. |
| FatherDashboard.FromDraft | advice-frontend/src/components/AdviceForm.tsx:33-37 | The record the form sends has its category, age and content, and no media. |
| FatherDashboard.AddedDraftIsFresh | advice-frontend/src/components/FatherDashboard.tsx:68-77 | A draft becomes an unread, unstarred, media-less advice by this father at the head of the list. |
| FatherDashboard.FilteredAdvices | advice-frontend/src/components/FatherDashboard.tsx:85-90 | An order-preserving subsequence holding exactly the advices the filter key keeps, each with its multiplicity in the list. |
| FatherDashboard.Stats | advice-frontend/src/components/FatherDashboard.tsx:92-96 | Total is the list length. Read and unread are the sizes of the "read" and "unread" views, and read + unread = total. |
| FatherDashboard.AllShowsEverything | advice-frontend/src/components/FatherDashboard.tsx:86 | The "all" filter shows the whole list. |
| FatherDashboard.ReadUnreadPartition | advice-frontend/src/components/FatherDashboard.tsx:87-88 | The "read" and "unread" views are disjoint, and together they hold the list with multiplicity. |
| FatherDashboard.OtherKeyFiltersByCategory | advice-frontend/src/components/FatherDashboard.tsx:89 | Any other key keeps exactly the advices of that category, in order. |
| FatherDashboard.FormKeysFilterByCategory | advice-frontend/src/components/FatherDashboard.tsx:168-175 | None of the form's category keys is a special key, so each filters by category. |
| FatherDashboard.AddingCountsAsUnread | advice-frontend/src/components/FatherDashboard.tsx:68-96 | Adding raises total and unread by one and leaves read alone. |
| FatherDashboard.HandleAdviceClick | advice-frontend/src/components/FatherDashboard.tsx:80-83 | Selects the clicked advice and opens the modal; list and filter stay. |
| FatherDashboard.ModalAdvice | advice-frontend/src/components/FatherDashboard.tsx:207-213 | The modal shows exactly when it is open and an advice is selected, and it shows that advice. |
| FatherDashboard.ClickOpensModal | advice-frontend/src/components/FatherDashboard.tsx:80-83 | After a click the modal shows the clicked advice and the counters are unchanged. |
| FatherDashboard.FatherCardsHaveNoFavoriteMarks | advice-frontend/src/components/FatherDashboard.tsx:194-199 | Father cards have no star control and no favourite badge. |
| ChildDashboard.FilteredAdvices | advice-frontend/src/components/ChildDashboard.tsx:80-85 | An order-preserving subsequence holding exactly the advices the filter key keeps for the given age, each with its multiplicity in the list. |
| ChildDashboard.Available | advice-frontend/src/components/ChildDashboard.tsx:87 | An order-preserving subsequence of exactly the due advices, each with its multiplicity in the list. |
| ChildDashboard.Future | advice-frontend/src/components/ChildDashboard.tsx:88 | An order-preserving subsequence of exactly the advices not yet due, each with its multiplicity in the list. |
| ChildDashboard.Favorites | advice-frontend/src/components/ChildDashboard.tsx:89 | An order-preserving subsequence of exactly the starred advices, each with its multiplicity in the list. |
| ChildDashboard.AvailableFuturePartition | advice-frontend/src/components/ChildDashboard.tsx:87-88 | Available and future split the list: the sizes add up and the multisets add up to the list. |
| ChildDashboard.ViewsMatchCounters | advice-frontend/src/components/ChildDashboard.tsx:80-89 | The "available", "future" and "favorites" views equal the corresponding counter lists, and any other key shows the whole list. |
| ChildDashboard.FavoritesIgnoreAge | advice-frontend/src/components/ChildDashboard.tsx:83-89 | A starred advice not yet due is in the favourites view, and the favourites split into due and not-yet-due ones. |
| ChildDashboard.MarkOpened | advice-frontend/src/components/ChildDashboard.tsx:67-69 | Exactly the entries with the id become read; length, order and other fields stay. |
| ChildDashboard.OpenTwiceSameAsOnce | advice-frontend/src/components/ChildDashboard.tsx:67-69 | Opening twice equals opening once. |
| ChildDashboard.HandleAdviceClick | advice-frontend/src/components/ChildDashboard.tsx:65-72 | Marks the advice read in the list, selects the clicked record and opens the modal; filter and age stay. |
| ChildDashboard.NoAgeGate | advice-frontend/src/components/ChildDashboard.tsx:65-72 | A not-yet-due advice clicked in a view that shows it is marked read, and that view is not "available". |
| ChildDashboard.FlipFavorite | advice-frontend/src/components/ChildDashboard.tsx:75-77 | Exactly the entries with the id have their star negated; everything else stays. |
| ChildDashboard.FlipTwiceRestores | advice-frontend/src/components/ChildDashboard.tsx:75-77 | Starring twice restores the list. |
| ChildDashboard.HandleToggleFavorite | advice-frontend/src/components/ChildDashboard.tsx:74-78 | Only the list changes, by the star flip. |
| ChildDashboard.ToggleMovesFavoritesOnly | advice-frontend/src/components/ChildDashboard.tsx:74-89 | Starring leaves the available and future counts unchanged. |
| ChildDashboard.ChildCardsHaveStar | advice-frontend/src/components/ChildDashboard.tsx:198-204 | Every child card has the star control, filled exactly for a favourite. |

## Left out

- Supabase queries and inserts, JWT issuing and checking, bcrypt hashing and the `/auth/login` endpoint are left out. They are I/O or cryptography; the store is an in-memory value and the password hash is a parameter.
- Database failures (the 500 responses after inserts and updates) are left out, because they come from the database, not from the code's rules.
- The listing's `order("created_at", desc=True)` is left out: the database does the ordering. `Backend.GetAdvices` keeps store order.
- Backend.GetAdvices: a child with no father id gets an empty listing. The code sends `author_id = None` to the database, and what the database answers is not modelled.
- Backend.GetStats: the hard-coded age 25 is a parameter.
- Backend.GetAdvice: the model returns the whole row. The code builds an `AdviceResponse` (main.py:64-73), which keeps only its declared fields, so the unfixed endpoint's reply carries no `media_url`; the response models and the `created_at`/`updated_at` timestamps are not modelled.
- ChildDashboard: the hard-coded age 25 is a parameter.
- The `print` at line 38 of `main_fixed.py`, which logs the rewritten URL, is left out: it is console output and changes no value.
- Lines 1-16 of `main_fixed.py` (the listing variant) are not part of this model, because it is a fragment cut off mid-statement. Its `print` call is output only.
- AdviceCard.CategoryEmoji: keys inherited from JavaScript's `Object.prototype` (such as "constructor") are not modelled. Such a category would find a function rather than the fallback.
- AdviceCard.CategoryName: keys inherited from JavaScript's `Object.prototype` are likewise not modelled.
- AdviceForm.HandleSubmit: `parseInt` is not modelled. Its result is a parameter, and a `NaN` result is not represented.
- FatherDashboard.AddAdvice: `Date.now()` and the formatted date are parameters.
- The login/registration form (`AuthSection.tsx`), the pages, the layout, the styling and the Supabase client are left out. They are UI plumbing and I/O.
- Animations, console logging and the `onError` DOM rewriting of broken media in the card are left out, because they are presentation only.
- The sample advice lists that the dashboards load on mount are left out. They are fixed data, not rules.
- Closing the modal, the filter buttons' highlighting and the per-filter empty-list captions are left out, because they are presentation only.
