# eqbank question bank: a verified model

eqbank is a Django web application for a school question bank. Teachers keep
questions classified by class, subject, chapter and type. They filter the bank,
select questions and assemble them into printable exam papers. This project
models the logic behind that and proves properties of it in Dafny:

- **the taxonomy** (`Models`): class, subject and chapter, with unique class
  names, cascading deletes and the `__str__` renderings. It also covers
  profiles, questions and question papers. `Store` is the database as one
  object. Its methods are the inserts and deletes that the views and the
  `normalize_question_types` command perform, plus the set-up inserts and the
  cascading deletes the schema declares.
- **question selection** (`SelectView`): `teacher_question_select` fills the
  dropdowns, gates the question list on all four filters, filters by exact
  equality, orders newest first and applies the requested count.
- **paper views** (`PaperViews`):
  - `prepare_paper_view` records the selected questions as a new paper.
  - `paper_delete_view` deletes only a paper that belongs to the signed-in
    user.
  - `delete_paper` is a second delete endpoint; see Findings.
- **question creation** (`QuestionModal`): `create_question_from_modal`
  validates the request, then creates one question per subject/chapter
  combination in one of four loop shapes, and counts them.
- **the question-type normaliser** (`NormalizeQuestionTypes`):
  - the `MAPPING` table;
  - `normalize`, which does first-match substring matching over English and
    Bengali spellings;
  - `handle`, which rewrites every stored type in place and counts the
    rewrites.
- **the Bengali numeral filter** (`Filters`): `to_bangla_number`.
- **helper modules**:
  - `PyStr` models the Python built-ins the code relies on: `str.strip`, ASCII
    `str.lower`, `in` on strings, `int()` on text (Unicode whitespace, sign,
    underscores, ASCII and Bengali digits), and `str()` of an integer.
  - `Http` models Django's `QueryDict`: `get` returns the last value and
    `getlist` returns all of them.
  - `Wrappers` holds the `Option` type.

Request data, the clock (`now`) and the signed-in user are parameters.

Three behaviours of the selection view are worth stating plainly:

- Selection compares `question_type` by exact equality, with no synonym
  expansion.
- A `question_count` of zero or less returns every match.
- One `chapter_id` is read from the query string.

## Model

| member | source | states |
|---|---|---|
| Filters.NumbersTable | core/filters.py:7 | the table holds exactly the ten ASCII digits, and maps each one to the Bengali digit (U+09E6..U+09EF) of the same value |
| Filters.MapChar | core/filters.py:8 | `numbers.get(ch, ch)`: the result is never an ASCII digit, and a character is left as it is exactly when it is not an ASCII digit |
| Filters.ToBanglaNumber | core/filters.py:8 | the output is as long as the input, and character i is the table lookup of character i, or that character itself |
| Filters.MapCharDigit | core/filters.py:7-8 | a digit becomes the Bengali digit of the same numeric value; every other character is unchanged |
| Filters.DigitMapping | core/filters.py:7-8 | position by position: an ASCII digit becomes its Bengali digit, and any other character passes through |
| Filters.Concatenation | core/filters.py:8 | f(a + b) == f(a) + f(b) |
| Filters.NoAsciiDigitsLeft | core/filters.py:7-8 | the output has no ASCII digit, so applying the filter twice equals applying it once |
| Filters.BanglaDigitsValue | core/filters.py:7-8 | a string of ASCII digits becomes digits `int()` accepts, spelling the same value |
| Filters.ParseIntOfBanglaNumber | core/filters.py:7-8 | `int(to_bangla_number(n)) == n` for every integer n |
| PyStr.StripIdempotent | core/management/commands/normalize_question_types.py:16 | `s.strip().strip() == s.strip()` |
| PyStr.LowerOfStripped | core/management/commands/normalize_question_types.py:16 | the stripped, lower-cased text is already stripped and already lower-case |
| PyStr.ContainsSurvivesStripLower | core/management/commands/normalize_question_types.py:16-19 | a variant with no spaces and no capitals that occurs in a label still occurs after `.strip().lower()` |
| PyStr.ParseIntOfIntToStr | core/filters.py:8 | `int(str(n)) == n` |
| PyStr.ParseIntRejectsBlank | core/views.py:403 | `int()` raises on the empty string and on all-whitespace text |
| Http.Get | core/views.py:134-138 | `QueryDict.get`: None exactly when the key has no value, otherwise the last value submitted |
| Http.ParseIds | core/views.py:191 | the `int()` conversion of an `id__in` list: it fails exactly when some element is not an integer, and otherwise gives each element's value in order |
| Http.ToSet | core/views.py:191 | the members are exactly the listed ids |
| Models.ProfileStr | core/models.py:12-13 | a profile renders as the username followed by " Profile", stated piece by piece: the length, the username prefix and the " Profile" suffix |
| Models.Store.Valid | core/models.py:7-43 | the schema's constraints hold: unique class names (line 19), one profile per existing user (line 7), every subject's class and every chapter's subject exist (lines 31 and 43) |
| Models.SubjectStr | core/models.py:33-34 | a subject renders as its name, then " - ", then its class's name, piece by piece |
| Models.ChapterStr | core/models.py:45-46 | a chapter renders as its name, " (", its subject's name and ")" |
| Models.SubjectStrDistinguishesNames | core/models.py:33-34 | two subjects of one class render alike iff their names are equal |
| Models.ChapterStrDistinguishesNames | core/models.py:45-46 | two chapters of one subject render alike iff their names are equal |
| Models.ProfileStrDistinguishesUsers | core/models.py:12-13 | two profiles render alike iff their usernames are equal |
| Models.ClassNamesRenderDistinct | core/models.py:19-22 | a class renders as its bare name, and with unique class names no two classes render alike |
| Models.Surviving | core/models.py:31-43 | after a cascade, exactly the questions whose class, subject and chapter all still exist remain, with ids still distinct |
| Models.PapersRestricted | core/models.py:31-43 | every paper keeps its row, and its question links shrink to the surviving questions |
| Models.Store.constructor | core/models.py:6-46 | the empty database satisfies every table invariant |
| Models.Store.CreateUser | core/views.py:46 | `User.objects.create_user`: adds exactly one user with a fresh id and the given username, and changes no other table |
| Models.Store.CreateProfile | core/models.py:7 | a profile is added only for an existing user without one (at most one profile per user) |
| Models.Store.CreateClass | core/models.py:19 | refused exactly when the name is taken; otherwise one class with a fresh id is added, and names stay unique |
| Models.Store.CreateSubject | core/models.py:31 | refused exactly when the class is missing; otherwise one subject owned by that class is added |
| Models.Store.CreateChapter | core/models.py:43 | refused exactly when the subject is missing; otherwise one chapter owned by that subject is added |
| Models.Store.CreateQuestion | core/views.py:442-453 | appends exactly one row with a fresh id and the given fields, and keeps the invariants |
| Models.Store.CreatePaper | core/views.py:198-206 | adds exactly one paper with a fresh id, linked to exactly the given existing questions |
| Models.Store.RemovePaper | core/views.py:250 | removes exactly that paper; the questions stay |
| Models.Store.SetQuestionType | core/management/commands/normalize_question_types.py:31-32 | row i gets the new type, and every other field and row is unchanged |
| Models.Store.DropOrphanQuestions | core/models.py:31-43 | removes exactly the questions whose references are gone, and their paper links |
| Models.Store.DeleteClass | core/models.py:31-43 | the class, its subjects, their chapters and every question referring to any of them are deleted, and the invariants hold |
| Models.Store.DeleteSubject | core/models.py:43 | the subject, its chapters and the questions referring to either are deleted |
| Models.Store.DeleteUser | core/models.py:7 | deleting a user deletes the user's profile |
| NormalizeQuestionTypes.MappingShape | core/management/commands/normalize_question_types.py:7-11 | `MAPPING` has three rows, keyed `mcq`, `short` and `creative` in that order, with 11, 5 and 3 spellings, and each row's first spelling is its own key |
| NormalizeQuestionTypes.FirstMatch | core/management/commands/normalize_question_types.py:17-20 | None iff no row has a variant in the text; otherwise the key of the first row in table order that has one |
| NormalizeQuestionTypes.Normalize | core/management/commands/normalize_question_types.py:13-21 | an empty or None value gives ''; otherwise the result is '', a canonical key, or the stripped, lower-cased input |
| NormalizeQuestionTypes.NormalizeFirstMatchWins | core/management/commands/normalize_question_types.py:16-21 | the first matching row's key is returned; with no match, the stripped, lower-cased input is returned |
| NormalizeQuestionTypes.BahuGivesMcq | core/management/commands/normalize_question_types.py:8 | any label containing "বহু" normalises to `mcq` |
| NormalizeQuestionTypes.FirstMatchIsKey | core/management/commands/normalize_question_types.py:7-11 | every key the table can return is `mcq`, `short` or `creative` |
| NormalizeQuestionTypes.KeysAreFixedPoints | core/management/commands/normalize_question_types.py:7-21 | each canonical key normalises to itself |
| NormalizeQuestionTypes.FallbackIsFixed | core/management/commands/normalize_question_types.py:21 | a fallback value normalises to itself |
| NormalizeQuestionTypes.NormalizeIsTrimmed | core/management/commands/normalize_question_types.py:16-21 | the result has no whitespace at either end |
| NormalizeQuestionTypes.NormalizeIdempotent | core/management/commands/normalize_question_types.py:13-21 | normalize(normalize(v)) == normalize(v) |
| NormalizeQuestionTypes.NeedsRewrite | core/management/commands/normalize_question_types.py:28-30 | the rewrite test `new and new != old`: a blank type or a type that is already a canonical key never needs a rewrite, and a row that needs one changes value |
| NormalizeQuestionTypes.Rewritten | core/management/commands/normalize_question_types.py:28-32 | only `question_type` can change; the row changes iff the normalised stripped type is non-empty and differs from the stripped type, and it then becomes that value |
| NormalizeQuestionTypes.RewrittenAll | core/management/commands/normalize_question_types.py:26-32 | the table after the loop: the same length, each row rewritten on its own |
| NormalizeQuestionTypes.CountRewrites | core/management/commands/normalize_question_types.py:33 | the number of rows that need a rewrite, never more than the number of rows |
| NormalizeQuestionTypes.RewrittenIsStable | core/management/commands/normalize_question_types.py:28-33 | a rewritten row needs no further rewrite |
| NormalizeQuestionTypes.HandleSecondRunIsNoOp | core/management/commands/normalize_question_types.py:23-33 | a second run changes no row and reports zero updates |
| NormalizeQuestionTypes.NoRewriteCountsZero | core/management/commands/normalize_question_types.py:30-33 | a table needing no rewrite counts zero updates |
| NormalizeQuestionTypes.SaveRow | core/management/commands/normalize_question_types.py:28-33 | one iteration: row i becomes its rewritten form, and the method reports whether it wrote |
| NormalizeQuestionTypes.Handle | core/management/commands/normalize_question_types.py:23-34 | the table becomes the row-by-row rewrite of the old table; `total` is the number of rows and `changed` the number of rows that needed a rewrite |
| SelectView.TeacherQuestionSelect | core/views.py:124-176 | the view: every rendered page lists all classes, questions are shown only for a GET with all four filters, and a page that shows none has an empty list; the Select lemmas below state the rest |
| SelectView.SubjectsOf | core/views.py:141-142 | exactly the subjects of the class |
| SelectView.ChaptersOf | core/views.py:143-144 | exactly the chapters of the subject |
| SelectView.Matching | core/views.py:152-159 | exactly the rows that match all four filters, each row at most as often as stored |
| SelectView.InsertNewest | core/views.py:159 | inserting into a newest-first list keeps it newest first and adds exactly that row |
| SelectView.NewestFirst | core/views.py:159 | `order_by('-created_at')`: the newest-first order, and a permutation of the input |
| SelectView.Limit | core/views.py:161-168 | the result is always a prefix of the ordered list |
| SelectView.ShownDropdowns | core/views.py:139-144 | fails iff a given class or subject id is not an integer; otherwise lists exactly the subjects of the given class and the chapters of the given subject, or none when that id is absent |
| SelectView.RequestedCriteria | core/views.py:148-157 | defined iff the three ids are integers, and then it carries exactly the requested values |
| SelectView.SelectGate | core/views.py:130-149 | without all four filters no question is shown; the result is a server error iff a given class or subject id is not an integer |
| SelectView.SelectDropdowns | core/views.py:127-144 | every rendered page lists every class and the dropdowns `ShownDropdowns` computes; a non-GET request shows empty dropdowns |
| SelectView.SelectExactMatch | core/views.py:148-159 | with all filters given and valid, questions are shown; each one is stored and has exactly the requested class, subject, chapter and type; they are newest first |
| SelectView.SelectBadChapterId | core/views.py:148-159 | all filters given with a chapter id that is not an integer gives a server error |
| SelectView.Ordered | core/views.py:159 | newest first, and a permutation of the matching rows |
| SelectView.OrderedMembers | core/views.py:152-159 | the ordered list holds exactly the stored rows that match |
| SelectView.SelectPositiveCount | core/views.py:161-166 | a count n > 0 shows the first min(n, matches) rows of the ordered list |
| SelectView.SelectInvalidCount | core/views.py:161-168 | a count that is not an integer shows the first min(20, matches) rows |
| SelectView.SelectAllMatches | core/views.py:159-166 | no count, or a count of zero or less, shows every match, in order |
| PaperViews.Resolved | core/views.py:191 | `filter(id__in=ids)`: exactly the stored rows whose id is selected, with distinct ids |
| PaperViews.FirstByKey | core/views.py:201 | `.first()`: a resolved row whose id is the smallest |
| PaperViews.ResolvedKeys | core/views.py:191 | the resolved ids are the selected ids that exist |
| PaperViews.DistinctKeysCount | core/views.py:203 | rows with distinct ids are as many as their ids |
| PaperViews.ResolvedCount | core/views.py:203 | `questions.count()` is the number of selected ids that exist |
| PaperViews.ProgramName | core/views.py:199 | "Prepared: " + (school_name or "Paper") |
| PaperViews.PreparedPaper | core/views.py:198-206 | the recorded paper: its creator, its program name, the class of the lowest-id question, type "combined", the count and the question set |
| PaperViews.PreparePaper | core/views.py:179-219 | a non-POST redirects. A malformed id is a server error. No existing selected question redirects and creates nothing. Otherwise exactly one paper is added, holding exactly the resolved questions, with the request's context |
| PaperViews.PreparedPaperContents | core/views.py:191-206 | the paper links exactly the selected ids that exist and counts them; its class is the class of one of them |
| PaperViews.OwnedPaper | core/views.py:249 | found iff both the id and the creator match |
| PaperViews.PaperDeleteReply | core/views.py:245-253 | success with 200 iff the user owns the paper, otherwise 404 not found |
| PaperViews.PaperDelete | core/views.py:245-253 | the paper is removed only when the id and the creator both match; otherwise no table changes |
| PaperViews.PaperDeleteOnlyByOwner | core/views.py:249-253 | another user's paper is answered with 404 |
| PaperViews.DeletePaperReplyAsWritten | core/views.py:506-527 | as written: 405 for non-POST, 200 on success, and 500 (not 404) for a missing or foreign paper |
| PaperViews.DeletePaperAsWrittenNever404 | core/views.py:518-522 | the 404 answer of `delete_paper` is never produced |
| PaperViews.DeletePaperAsWrittenMissingIs500 | core/views.py:511-527 | a POST for a paper that does not exist is answered with status 500 |
| PaperViews.DeletePaperReply | core/views.py:506-522 | as intended: 405 for non-POST; success iff the user owns the paper, otherwise 404 |
| PaperViews.DeleteViewsAgree | core/views.py:506-522 | on a POST the corrected endpoint and `paper_delete_view` agree on success and status |
| PaperViews.DeletePaper | core/views.py:506-522 | `delete_paper` as intended: removes the paper only for its owner; otherwise nothing changes |
| QuestionModal.OrNone | core/views.py:412-415 | `x or None`: present iff the value is given and non-empty |
| QuestionModal.ClassField | core/views.py:398 | `class_id`, or `class` when `class_id` is absent or empty |
| QuestionModal.StrippedField | core/views.py:407 | `(get(key) or '').strip()`: empty when the key is absent, and already stripped |
| QuestionModal.CheckRequest | core/views.py:398-416 | "class_id is required" iff there is no class id; "invalid class" iff it is not an integer or no such class exists; "question text is required" iff the class is valid and the stripped text is empty; accepted iff the class is valid and the stripped text is not empty, and then the draft carries exactly the request's fields |
| QuestionModal.TickedOrCurrent | core/views.py:418-429 | the ticked values when there are any; otherwise a one-element list holding the current filter from POST, or else from GET, when that is given, and the empty list when it is not |
| QuestionModal.SubjectsOfClass | core/views.py:431 | the selected subjects that exist and belong to the class |
| QuestionModal.ExistingChapters | core/views.py:432 | the selected chapters that exist |
| QuestionModal.ChaptersOfSubject | core/views.py:441 | the selected chapters of that subject |
| QuestionModal.PairSlots | core/views.py:439-441 | every pair row has a selected subject and a selected chapter, filed under the chapter's own subject |
| QuestionModal.SubjectSlots | core/views.py:455-457 | every subject row has a selected subject and no chapter |
| QuestionModal.ChapterSlots | core/views.py:470-472 | every chapter row has a selected chapter, filed under the chapter's own subject |
| QuestionModal.PlannedSlots | core/views.py:439-499 | the bare row without subject or chapter is planned exactly when nothing is selected, and every planned row with a chapter files it under that chapter's subject |
| QuestionModal.PairSlotsMembers | core/views.py:439-441 | a planned pair is exactly a selected subject with a selected chapter belonging to it |
| QuestionModal.PairSlotsCount | core/views.py:439-454 | there are as many pairs as selected chapters whose subject is selected |
| QuestionModal.PlannedCount | core/views.py:439-499 | how many rows each of the four branches creates (pairs, subjects, chapters, or exactly one) |
| QuestionModal.AppendedCount | core/views.py:434-499 | rows appended for distinct slots are as many as the slots |
| QuestionModal.CreateRow | core/views.py:442-453 | appends one row carrying the draft's fields and the given subject and chapter |
| QuestionModal.AppendRow | core/views.py:442-454 | one loop iteration adds the row of a new slot to the batch |
| QuestionModal.CreateForSubjects | core/views.py:455-469 | one row per selected subject, without a chapter, and `created` counts them |
| QuestionModal.CreateForChapters | core/views.py:470-484 | one row per selected chapter, filed under the chapter's subject, and `created` counts them |
| QuestionModal.CreateForSubjectChapters | core/views.py:441-454 | the inner loop: one row per chapter of the subject |
| QuestionModal.CreateForPairs | core/views.py:439-454 | one row per (selected subject, selected chapter of that subject) pair, and `created` equals the pair count |
| QuestionModal.CreatePlanned | core/views.py:439-499 | the four branches: exactly the planned rows, each once, counted |
| QuestionModal.Plan | core/views.py:418-432 | fails iff a subject or chapter id is not an integer |
| QuestionModal.CreateFromDraft | core/views.py:418-503 | after validation: a malformed id is a server error and creates nothing; otherwise one row per planned slot is appended and counted |
| QuestionModal.CreateQuestionFromModal | core/views.py:383-503 | a rejected request returns its error and creates nothing, and a malformed id creates nothing; otherwise one row is appended per planned slot, `created` counts them and `errors` is empty |

## Left out

- Authentication, login and logout, `login_required` and `require_POST` as HTTP machinery: outside this model. The method check of `delete_paper` is modelled as the `verb` argument.
- Template rendering, redirects and `JsonResponse`: outcomes are modelled as values (`Page`, `PrepareOutcome`, `Reply`, `ModalReply`).
- `my_papers_list` pagination, `paper_detail_view`, `question_ready` and the views that depend on forms in `core/forms.py`, which are not part of this model: they are pagination, plain lookups or depend on code not shown.
- The geographic lookups and the subject/chapter AJAX helpers: plain lookups over data that are not part of this model.
- The `except Exception` branch of `create_question_from_modal`: no row creation in the model raises, so `errors` is always empty.
- The `except Exception` branch of `delete_paper` is modelled only for the `Http404` it actually catches.
- `int()` accepts ASCII digits and Bengali digits but not the other Unicode decimal digits.
- PyStr.Lower: lowers ASCII capitals only, where Python's `str.lower()` lowers every Unicode capital. The table's keys and spellings and the Bengali text are unaffected, but for a stored type with a non-ASCII capital (say "É") NormalizeQuestionTypes.Normalize's fallback keeps the capital where the program lowers it, and NormalizeQuestionTypes.Handle leaves and does not count a row that the program rewrites and counts.
- Database row order: `Question.objects.all()` and the `for s in subj_qs` loops are visited in the stored order or in any order of the set; ties in `created_at` are broken by insertion order.
- PaperViews.FirstByKey and PaperViews.PreparedPaper: `.first()` on the unordered `filter(id__in=...)` is taken to return the row with the smallest id, which is Django's order when `Question` declares no `Meta.ordering`. `Question`'s `Meta` is not part of this model, so a paper's class level rests on that assumption.
- Paper ids in the URL are taken to be integers, since the URL patterns are not part of this model.
- One id counter is shared by all tables, standing in for per-table primary key sequences.
- `QuestionPaper` and `Question` are not defined in the modelled `core/models.py`. Their fields are taken from their use in `core/views.py`. Their foreign keys to the taxonomy are modelled as cascading. A paper's `creator` and `class_level` are left untouched by deletes, because the source does not show their `on_delete`.
- Transactions and concurrent requests: every operation runs alone.
- NormalizeQuestionTypes.Handle: does not state `changed <= total` as a separate clause. It follows from `changed == CountRewrites(...)`, `total == |rows|` and the contract of `CountRewrites`.
- The success message that `handle` writes to standard output: output only.

## Findings

| source | as written | input that shows it | evidently intended | confidence | as-written member | corrected member |
|---|---|---|---|---|---|---|
| core/views.py:511-522 | `get_object_or_404` raises `Http404`, not `QuestionPaper.DoesNotExist`, so the `except DoesNotExist` branch is dead. A missing or foreign paper falls to `except Exception` and gets status 500. | POST to `delete_paper` with a paper id that does not exist | status 404 with the not-found message, as `paper_delete_view` answers | high; not executed | PaperViews.DeletePaperAsWrittenMissingIs500 | PaperViews.DeletePaper |
