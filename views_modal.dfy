/**
 * `create_question_from_modal`: the form on the selection page that adds one
 * question to the bank, once for every subject/chapter combination the teacher
 * ticked. The request is validated first (a class that exists, a non-blank
 * text); then the rows are created in one of four shapes, depending on which
 * of the ticked subjects (of that class) and chapters exist, and counted.
 */
module QuestionModal {
  import opened Wrappers
  import opened PyStr
  import opened Http
  import opened Models

  /** The fields every created row shares. */
  datatype Draft = Draft(
    text: string,
    questionType: string,
    classId: int,
    optionA: Option<string>,
    optionB: Option<string>,
    optionC: Option<string>,
    optionD: Option<string>,
    correctOption: Option<string>)

  /** The subject and chapter a created row is filed under. */
  datatype Slot = Slot(subjectId: Option<int>, chapterId: Option<int>)

  /** The outcome of validation. */
  datatype Checked = Rejected(error: string) | Accepted(draft: Draft)

  /** What the view answers: a 400 with an error, the server error an id that is not an
      integer causes, or `{created: n, errors: [...]}`. */
  datatype ModalReply =
    | BadRequest(error: string)
    | ServerError
    | Created(created: nat, errors: seq<string>)

  const ClassRequired := "class_id is required"
  const InvalidClass := "invalid class"
  const TextRequired := "question text is required"

  /** `request.POST.get(key) or None`. */
  function OrNone(v: Option<string>): (r: Option<string>)
    ensures r.Some? <==> Truthy(v)
    ensures r.Some? ==> r == v
  {
    if Truthy(v) then v else None
  }

  /** `(request.POST.get(key) or '').strip()`. */
  function StrippedField(post: QueryDict, key: string): (r: string)
    ensures Get(post, key).None? ==> r == ""
    ensures Strip(r) == r
  {
    StripIdempotent(Get(post, key).GetOr(""));
    Strip(Get(post, key).GetOr(""))
  }

  /** The class id the form sends, under either of its two names: `class_id` when it is
      given and non-empty, `class` otherwise. */
  function ClassField(post: QueryDict): (r: Option<string>)
    ensures Truthy(Get(post, "class_id")) ==> r == Get(post, "class_id")
    ensures !Truthy(Get(post, "class_id")) ==> r == Get(post, "class")
  {
    Or(Get(post, "class_id"), Get(post, "class"))
  }

  /** Validation of the class and the text, and the shared fields of the rows. */
  function CheckRequest(post: QueryDict, classes: map<int, ClassName>): (r: Checked)
    ensures r == Rejected(ClassRequired) <==> !Truthy(ClassField(post))
    ensures Truthy(ClassField(post)) ==>
              (r == Rejected(InvalidClass) <==>
                 ParseInt(ClassField(post).value).None? || ParseInt(ClassField(post).value).value !in classes)
    ensures r.Rejected? ==> r.error in {ClassRequired, InvalidClass, TextRequired}
    ensures r == Rejected(TextRequired) <==>
              && Truthy(ClassField(post))
              && ParseInt(ClassField(post).value).Some?
              && ParseInt(ClassField(post).value).value in classes
              && StrippedField(post, "text") == ""
    ensures r.Accepted? <==>
              && Truthy(ClassField(post))
              && ParseInt(ClassField(post).value).Some?
              && ParseInt(ClassField(post).value).value in classes
              && StrippedField(post, "text") != ""
    ensures r.Accepted? ==>
              && r.draft.classId == ParseInt(ClassField(post).value).value
              && r.draft.classId in classes
              && r.draft.text == StrippedField(post, "text") && r.draft.text != ""
              && r.draft.questionType == (if Truthy(Get(post, "question_type")) then Get(post, "question_type").value else "mcq")
              && r.draft.optionA == OrNone(Get(post, "option_a"))
              && r.draft.optionB == OrNone(Get(post, "option_b"))
              && r.draft.optionC == OrNone(Get(post, "option_c"))
              && r.draft.optionD == OrNone(Get(post, "option_d"))
              && (r.draft.correctOption.Some? <==> StrippedField(post, "correct_option") != "")
              && (r.draft.correctOption.Some? ==> r.draft.correctOption.value == StrippedField(post, "correct_option"))
  {
    var classId := ClassField(post);
    if !Truthy(classId) then Rejected(ClassRequired)
    else
      match ParseInt(classId.value)
      case None => Rejected(InvalidClass)
      case Some(c) =>
        if c !in classes then Rejected(InvalidClass)
        else
          var text := StrippedField(post, "text");
          if text == "" then Rejected(TextRequired)
          else
            var questionType := Get(post, "question_type");
            var correct := StrippedField(post, "correct_option");
            Accepted(Draft(text, if Truthy(questionType) then questionType.value else "mcq", c,
                           OrNone(Get(post, "option_a")), OrNone(Get(post, "option_b")),
                           OrNone(Get(post, "option_c")), OrNone(Get(post, "option_d")),
                           if correct == "" then None else Some(correct)))
  }

  /** A multi-valued field, falling back to the single current filter (from the form, then
      from the query string) when nothing was ticked. */
  function TickedOrCurrent(post: QueryDict, get: QueryDict, listKey: string, currentKey: string): (r: seq<string>)
    ensures GetList(post, listKey) != [] ==> r == GetList(post, listKey)
    ensures GetList(post, listKey) == [] ==>
              r == (if Truthy(Or(Get(post, currentKey), Get(get, currentKey)))
                    then [Or(Get(post, currentKey), Get(get, currentKey)).value] else [])
  {
    var ticked := GetList(post, listKey);
    if ticked != [] then ticked
    else
      var current := Or(Get(post, currentKey), Get(get, currentKey));
      if Truthy(current) then [current.value] else []
  }

  /** `Subject.objects.filter(id__in=ids, class_name=class_obj)`. */
  function SubjectsOfClass(ids: set<int>, subjects: map<int, Subject>, c: int): (r: set<int>)
    ensures forall s :: s in r <==> s in ids && s in subjects && subjects[s].classId == c
  {
    set s | s in ids && s in subjects && subjects[s].classId == c
  }

  /** `Chapter.objects.filter(id__in=ids)`. */
  function ExistingChapters(ids: set<int>, chapters: map<int, Chapter>): (r: set<int>)
    ensures forall ch :: ch in r <==> ch in ids && ch in chapters
  {
    set ch | ch in ids && ch in chapters
  }

  /** The selected chapters of subject `s`: `chap_qs.filter(subject_id=s)`. */
  function ChaptersOfSubject(chapSet: set<int>, chapters: map<int, Chapter>, s: int): (r: set<int>)
    ensures forall ch :: ch in r <==> ch in chapSet && ch in chapters && chapters[ch].subjectId == s
  {
    set ch | ch in chapSet && ch in chapters && chapters[ch].subjectId == s
  }

  // ---------------------------------------------------------------------------
  // The rows each branch creates

  /** A row with a chapter files it under that chapter's own subject. */
  predicate FiledUnderOwnSubject(slot: Slot, chapters: map<int, Chapter>) {
    slot.chapterId.Some? ==>
      slot.chapterId.value in chapters && slot.subjectId == Some(chapters[slot.chapterId.value].subjectId)
  }

  /** Every row of `slots` that has a chapter files it under that chapter's own subject. */
  predicate AllFiledUnderOwnSubject(slots: set<Slot>, chapters: map<int, Chapter>) {
    forall slot :: slot in slots ==> FiledUnderOwnSubject(slot, chapters)
  }

  /** Both kinds selected: one row per selected subject and selected chapter of it. */
  function PairSlots(subjSet: set<int>, chapSet: set<int>, chapters: map<int, Chapter>): (r: set<Slot>)
    ensures forall slot :: slot in r ==>
              && slot.subjectId.Some? && slot.subjectId.value in subjSet
              && slot.chapterId.Some? && slot.chapterId.value in chapSet
    ensures AllFiledUnderOwnSubject(r, chapters)
  {
    set s, ch | s in subjSet && ch in chapSet && ch in chapters && chapters[ch].subjectId == s :: Slot(Some(s), Some(ch))
  }

  /** Only subjects: one row per subject, without a chapter. */
  function SubjectSlots(subjSet: set<int>): (r: set<Slot>)
    ensures forall slot :: slot in r ==> slot.chapterId.None? && slot.subjectId.Some? && slot.subjectId.value in subjSet
  {
    set s | s in subjSet :: Slot(Some(s), None)
  }

  /** Only chapters: one row per chapter, filed under the chapter's own subject. */
  function ChapterSlots(chapSet: set<int>, chapters: map<int, Chapter>): (r: set<Slot>)
    ensures forall slot :: slot in r ==>
              && slot.chapterId.Some? && slot.chapterId.value in chapSet
    ensures AllFiledUnderOwnSubject(r, chapters)
  {
    set ch | ch in chapSet && ch in chapters :: Slot(Some(chapters[ch].subjectId), Some(ch))
  }

  /** A non-empty set has a member. */
  lemma SomeMember<T>(s: set<T>) returns (y: T)
    requires s != {}
    ensures y in s
  {
    if forall z :: z !in s {
      assert false;
    }
    y :| y in s;
  }

  /** The rows the view creates, by branch. */
  function PlannedSlots(subjSet: set<int>, chapSet: set<int>, chapters: map<int, Chapter>): (r: set<Slot>)
    ensures Slot(None, None) in r <==> subjSet == {} && chapSet == {}
    ensures AllFiledUnderOwnSubject(r, chapters)
  {
    if subjSet != {} && chapSet != {} then PairSlots(subjSet, chapSet, chapters)
    else if subjSet != {} then SubjectSlots(subjSet)
    else if chapSet != {} then ChapterSlots(chapSet, chapters)
    else {Slot(None, None)}
  }

  /** A row planned with both kinds selected files exactly a selected subject together with
      a selected chapter that belongs to it. */
  lemma PairSlotsMembers(subjSet: set<int>, chapSet: set<int>, chapters: map<int, Chapter>, slot: Slot)
    ensures slot in PairSlots(subjSet, chapSet, chapters) <==>
              && slot.subjectId.Some? && slot.chapterId.Some?
              && slot.subjectId.value in subjSet
              && slot.chapterId.value in chapSet && slot.chapterId.value in chapters
              && chapters[slot.chapterId.value].subjectId == slot.subjectId.value
  {
    if slot.subjectId.Some? && slot.chapterId.Some? {
      var s, ch := slot.subjectId.value, slot.chapterId.value;
      assert slot == Slot(Some(s), Some(ch));
      if s in subjSet && ch in chapSet && ch in chapters && chapters[ch].subjectId == s {
        assert Slot(Some(s), Some(ch)) in PairSlots(subjSet, chapSet, chapters);
      }
    }
  }

  /** The chapter-only rows: an injective image of the selected chapters. */
  function ChapterSlot(chapters: map<int, Chapter>, ch: int): Slot
    requires ch in chapters
  {
    Slot(Some(chapters[ch].subjectId), Some(ch))
  }

  /** Every pair row is determined by its chapter, so the pairs are as many as the selected
      chapters whose subject is selected. */
  lemma PairSlotsCount(subjSet: set<int>, chapSet: set<int>, chapters: map<int, Chapter>)
    ensures |PairSlots(subjSet, chapSet, chapters)|
            == |set ch | ch in chapSet && ch in chapters && chapters[ch].subjectId in subjSet|
  {
    var chs := set ch | ch in chapSet && ch in chapters && chapters[ch].subjectId in subjSet;
    ChapterImageCount(chs, chapters);
    var image := set ch | ch in chs :: ChapterSlot(chapters, ch);
    forall slot ensures slot in PairSlots(subjSet, chapSet, chapters) <==> slot in image {
      PairSlotsMembers(subjSet, chapSet, chapters, slot);
      if slot in image {
        var ch :| ch in chs && slot == ChapterSlot(chapters, ch);
      }
      if slot in PairSlots(subjSet, chapSet, chapters) {
        var ch := slot.chapterId.value;
        assert ch in chs && slot == ChapterSlot(chapters, ch);
      }
    }
    assert PairSlots(subjSet, chapSet, chapters) == image;
  }

  /** Distinct chapters give distinct chapter-only rows. */
  lemma {:induction false} ChapterImageCount(chs: set<int>, chapters: map<int, Chapter>)
    requires chs <= chapters.Keys
    ensures |set ch | ch in chs :: ChapterSlot(chapters, ch)| == |chs|
  {
    if chs != {} {
      var x := SomeMember(chs);
      var rest := chs - {x};
      ChapterImageCount(rest, chapters);
      var image := set ch | ch in chs :: ChapterSlot(chapters, ch);
      var restImage := set ch | ch in rest :: ChapterSlot(chapters, ch);
      assert image == restImage + {ChapterSlot(chapters, x)};
      assert ChapterSlot(chapters, x) !in restImage;
    }
  }

  lemma {:induction false} SubjectSlotsCount(subjSet: set<int>)
    ensures |SubjectSlots(subjSet)| == |subjSet|
  {
    if subjSet != {} {
      var x := SomeMember(subjSet);
      var rest := subjSet - {x};
      SubjectSlotsCount(rest);
      assert SubjectSlots(subjSet) == SubjectSlots(rest) + {Slot(Some(x), None)};
    }
  }

  /** How many rows each branch creates. */
  lemma PlannedCount(subjSet: set<int>, chapSet: set<int>, chapters: map<int, Chapter>)
    requires chapSet <= chapters.Keys
    ensures subjSet != {} && chapSet != {} ==>
              |PlannedSlots(subjSet, chapSet, chapters)| == |set ch | ch in chapSet && chapters[ch].subjectId in subjSet|
    ensures subjSet != {} && chapSet == {} ==> |PlannedSlots(subjSet, chapSet, chapters)| == |subjSet|
    ensures subjSet == {} && chapSet != {} ==> |PlannedSlots(subjSet, chapSet, chapters)| == |chapSet|
    ensures subjSet == {} && chapSet == {} ==> PlannedSlots(subjSet, chapSet, chapters) == {Slot(None, None)}
  {
    if subjSet != {} && chapSet != {} {
      PairSlotsCount(subjSet, chapSet, chapters);
      assert (set ch | ch in chapSet && ch in chapters && chapters[ch].subjectId in subjSet)
          == (set ch | ch in chapSet && chapters[ch].subjectId in subjSet);
    } else if subjSet != {} {
      SubjectSlotsCount(subjSet);
    } else if chapSet != {} {
      ChapterImageCount(chapSet, chapters);
      assert ChapterSlots(chapSet, chapters) == set ch | ch in chapSet :: ChapterSlot(chapters, ch);
    }
  }

  // ---------------------------------------------------------------------------
  // The rows appended to the question table

  /** A created row carries the shared fields. */
  predicate FromDraft(q: Question, d: Draft, now: int) {
    && q.text == d.text && q.questionType == d.questionType && q.classId == d.classId
    && q.optionA == d.optionA && q.optionB == d.optionB && q.optionC == d.optionC && q.optionD == d.optionD
    && q.correctOption == d.correctOption && q.createdAt == now
  }

  function SlotOf(q: Question): Slot {
    Slot(q.subjectId, q.chapterId)
  }

  function SlotsOf(qs: seq<Question>): set<Slot> {
    set k | 0 <= k < |qs| :: SlotOf(qs[k])
  }

  ghost predicate DistinctSlots(qs: seq<Question>) {
    forall i, j :: 0 <= i < j < |qs| ==> SlotOf(qs[i]) != SlotOf(qs[j])
  }

  /** `after` is `before` followed by one row from the draft for each slot of `slots`. */
  ghost predicate Appended(before: seq<Question>, after: seq<Question>, d: Draft, now: int, slots: set<Slot>) {
    && |before| <= |after|
    && after[..|before|] == before
    && (forall k :: |before| <= k < |after| ==> FromDraft(after[k], d, now))
    && SlotsOf(after[|before|..]) == slots
    && DistinctSlots(after[|before|..])
  }

  lemma AppendedNothing(qs: seq<Question>, d: Draft, now: int)
    ensures Appended(qs, qs, d, now, {})
  {
  }

  /** The slots of two batches of rows, one after the other. */
  lemma SlotsOfConcat(x: seq<Question>, y: seq<Question>)
    ensures SlotsOf(x + y) == SlotsOf(x) + SlotsOf(y)
  {
    var xy := x + y;
    forall slot | slot in SlotsOf(xy) ensures slot in SlotsOf(x) + SlotsOf(y) {
      var k :| 0 <= k < |xy| && slot == SlotOf(xy[k]);
      if k < |x| { assert xy[k] == x[k]; } else { assert xy[k] == y[k - |x|]; }
    }
    forall slot | slot in SlotsOf(x) + SlotsOf(y) ensures slot in SlotsOf(xy) {
      if slot in SlotsOf(x) {
        var k :| 0 <= k < |x| && slot == SlotOf(x[k]);
        assert xy[k] == x[k];
      } else {
        var k :| 0 <= k < |y| && slot == SlotOf(y[k]);
        assert xy[|x| + k] == y[k];
      }
    }
  }

  /** Two batches of distinct slots, with no slot in both, are one batch of distinct slots. */
  lemma DistinctConcat(x: seq<Question>, y: seq<Question>)
    requires DistinctSlots(x) && DistinctSlots(y) && SlotsOf(x) !! SlotsOf(y)
    ensures DistinctSlots(x + y)
  {
    var xy := x + y;
    forall i, j | 0 <= i < j < |xy| ensures SlotOf(xy[i]) != SlotOf(xy[j]) {
      if i < |x| && j >= |x| {
        assert xy[i] == x[i] && xy[j] == y[j - |x|];
        assert SlotOf(x[i]) in SlotsOf(x) && SlotOf(y[j - |x|]) in SlotsOf(y);
      } else if i >= |x| {
        assert xy[i] == y[i - |x|] && xy[j] == y[j - |x|];
      } else {
        assert xy[i] == x[i] && xy[j] == x[j];
      }
    }
  }

  /** Splitting `c`, which extends `b`, which extends `a`, at the end of `b`. */
  lemma ExtendsTwice(a: seq<Question>, b: seq<Question>, c: seq<Question>)
    requires |a| <= |b| <= |c| && b[..|a|] == a && c[..|b|] == b
    ensures c[..|a|] == a && c[|a|..] == b[|a|..] + c[|b|..]
  {
    assert c[..|b|][..|a|] == c[..|a|];
  }

  /** Two batches of rows for disjoint slots make one batch. */
  lemma AppendedJoin(a: seq<Question>, b: seq<Question>, c: seq<Question>, d: Draft, now: int,
                     s1: set<Slot>, s2: set<Slot>)
    requires Appended(a, b, d, now, s1) && Appended(b, c, d, now, s2) && s1 !! s2
    ensures Appended(a, c, d, now, s1 + s2)
  {
    ExtendsTwice(a, b, c);
    SlotsOfConcat(b[|a|..], c[|b|..]);
    DistinctConcat(b[|a|..], c[|b|..]);
    forall k | |a| <= k < |c| ensures FromDraft(c[k], d, now) {
      if k < |b| { assert c[k] == b[k]; }
    }
  }

  /** Appending one more row for a new slot. */
  lemma AppendedStep(before: seq<Question>, mid: seq<Question>, q: Question, d: Draft, now: int, slots: set<Slot>)
    requires Appended(before, mid, d, now, slots)
    requires FromDraft(q, d, now) && SlotOf(q) !in slots
    ensures Appended(before, mid + [q], d, now, slots + {SlotOf(q)})
  {
    assert SlotsOf([q]) == {SlotOf(q)} by {
      assert SlotOf([q][0]) == SlotOf(q);
    }
    AppendedJoin(before, mid, mid + [q], d, now, slots, {SlotOf(q)});
  }

  /** Rows for distinct slots are as many as the slots. */
  lemma {:induction false} DistinctSlotsCount(qs: seq<Question>)
    requires DistinctSlots(qs)
    ensures |SlotsOf(qs)| == |qs|
  {
    if qs != [] {
      var n := |qs| - 1;
      var init := qs[..n];
      DistinctSlotsCount(init);
      assert SlotsOf(qs) == SlotsOf(init) + {SlotOf(qs[n])} by {
        forall k | 0 <= k < n ensures SlotOf(qs[k]) == SlotOf(init[k]) { }
      }
      assert SlotOf(qs[n]) !in SlotsOf(init);
    }
  }

  lemma AppendedCount(before: seq<Question>, after: seq<Question>, d: Draft, now: int, slots: set<Slot>)
    requires Appended(before, after, d, now, slots)
    ensures |after| == |before| + |slots|
  {
    DistinctSlotsCount(after[|before|..]);
  }

  // ---------------------------------------------------------------------------
  // The loops

  /** `Question.objects.create(...)` for one slot. */
  method CreateRow(store: Store, d: Draft, slot: Slot, now: int) returns (q: Question)
    requires store.Valid() && d.classId in store.classes
    requires slot.subjectId.Some? ==> slot.subjectId.value in store.subjects
    requires slot.chapterId.Some? ==> slot.chapterId.value in store.chapters
    modifies store`questions, store`nextId
    ensures store.Valid()
    ensures FromDraft(q, d, now) && SlotOf(q) == slot && store.questions == old(store.questions) + [q]
  {
    q := store.CreateQuestion(d.text, d.questionType, d.classId, slot.subjectId, slot.chapterId,
                                  d.optionA, d.optionB, d.optionC, d.optionD, d.correctOption, now);
  }

  /** One loop iteration: the row for a slot not created yet joins the batch since `before`. */
  method AppendRow(store: Store, d: Draft, slot: Slot, now: int, ghost before: seq<Question>, ghost slots: set<Slot>)
    requires store.Valid() && d.classId in store.classes
    requires slot.subjectId.Some? ==> slot.subjectId.value in store.subjects
    requires slot.chapterId.Some? ==> slot.chapterId.value in store.chapters
    requires Appended(before, store.questions, d, now, slots) && slot !in slots
    modifies store`questions, store`nextId
    ensures store.Valid()
    ensures Appended(before, store.questions, d, now, slots + {slot})
    ensures |store.questions| == |old(store.questions)| + 1
  {
    ghost var mid := store.questions;
    var q := CreateRow(store, d, slot, now);
    AppendedStep(before, mid, q, d, now, slots);
  }

  /** One more subject-only row. */
  lemma SubjectSlotsStep(done: set<int>, s: int)
    requires s !in done
    ensures Slot(Some(s), None) !in SubjectSlots(done)
    ensures SubjectSlots(done) + {Slot(Some(s), None)} == SubjectSlots(done + {s})
  {
  }

  /** One iteration of the subject loop: the row of subject `s` joins the batch. */
  method AppendSubjectRow(store: Store, d: Draft, s: int, now: int, ghost before: seq<Question>, ghost done: set<int>)
    requires store.Valid() && d.classId in store.classes && s in store.subjects && s !in done
    requires Appended(before, store.questions, d, now, SubjectSlots(done))
    modifies store`questions, store`nextId
    ensures store.Valid()
    ensures Appended(before, store.questions, d, now, SubjectSlots(done + {s}))
    ensures |store.questions| == |old(store.questions)| + 1
  {
    SubjectSlotsStep(done, s);
    AppendRow(store, d, Slot(Some(s), None), now, before, SubjectSlots(done));
  }

  /** `for s in subj_qs: create(subject=s, chapter=None)`; the set is visited in any order. */
  method CreateForSubjects(store: Store, d: Draft, subjSet: set<int>, now: int) returns (created: nat)
    requires store.Valid() && d.classId in store.classes && subjSet <= store.subjects.Keys
    modifies store`questions, store`nextId
    ensures store.Valid()
    ensures Appended(old(store.questions), store.questions, d, now, SubjectSlots(subjSet))
    ensures created == |SubjectSlots(subjSet)|
  {
    var left := subjSet;
    ghost var done: set<int> := {};
    created := 0;
    AppendedNothing(store.questions, d, now);
    while left != {}
      invariant store.Valid()
      invariant left + done == subjSet && left !! done
      invariant Appended(old(store.questions), store.questions, d, now, SubjectSlots(done))
      invariant created == |store.questions| - |old(store.questions)|
      decreases |left|
    {
      ghost var member := SomeMember(left);
      var s :| s in left;
      AppendSubjectRow(store, d, s, now, old(store.questions), done);
      left := left - {s};
      done := done + {s};
      created := created + 1;
    }
    AppendedCount(old(store.questions), store.questions, d, now, SubjectSlots(done));
  }

  /** One more chapter-only row. */
  lemma ChapterSlotsStep(done: set<int>, ch: int, chapters: map<int, Chapter>)
    requires ch in chapters && ch !in done
    ensures ChapterSlot(chapters, ch) !in ChapterSlots(done, chapters)
    ensures ChapterSlots(done, chapters) + {ChapterSlot(chapters, ch)} == ChapterSlots(done + {ch}, chapters)
  {
  }

  /** One iteration of the chapter loop: the row of chapter `ch` joins the batch. */
  method AppendChapterRow(store: Store, d: Draft, ch: int, now: int, ghost before: seq<Question>, ghost done: set<int>)
    requires store.Valid() && d.classId in store.classes && ch in store.chapters && ch !in done
    requires Appended(before, store.questions, d, now, ChapterSlots(done, store.chapters))
    modifies store`questions, store`nextId
    ensures store.Valid()
    ensures Appended(before, store.questions, d, now, ChapterSlots(done + {ch}, store.chapters))
    ensures |store.questions| == |old(store.questions)| + 1
  {
    ChapterSlotsStep(done, ch, store.chapters);
    AppendRow(store, d, ChapterSlot(store.chapters, ch), now, before, ChapterSlots(done, store.chapters));
  }

  /** `for ch in chap_qs: create(subject=ch.subject, chapter=ch)`. */
  method CreateForChapters(store: Store, d: Draft, chapSet: set<int>, now: int) returns (created: nat)
    requires store.Valid() && d.classId in store.classes && chapSet <= store.chapters.Keys
    modifies store`questions, store`nextId
    ensures store.Valid()
    ensures Appended(old(store.questions), store.questions, d, now, ChapterSlots(chapSet, store.chapters))
    ensures created == |ChapterSlots(chapSet, store.chapters)|
  {
    var left := chapSet;
    ghost var done: set<int> := {};
    created := 0;
    AppendedNothing(store.questions, d, now);
    while left != {}
      invariant store.Valid()
      invariant left + done == chapSet && left !! done
      invariant Appended(old(store.questions), store.questions, d, now, ChapterSlots(done, store.chapters))
      invariant created == |store.questions| - |old(store.questions)|
      decreases |left|
    {
      ghost var member := SomeMember(left);
      var ch :| ch in left;
      AppendChapterRow(store, d, ch, now, old(store.questions), done);
      left := left - {ch};
      done := done + {ch};
      created := created + 1;
    }
    AppendedCount(old(store.questions), store.questions, d, now, ChapterSlots(done, store.chapters));
  }

  /** The rows of subject `s` for the chapters in `chs`. */
  function SubjectChapterSlots(s: int, chs: set<int>): set<Slot> {
    set ch | ch in chs :: Slot(Some(s), Some(ch))
  }

  /** One more row of the inner loop. */
  lemma SubjectChapterSlotsStep(s: int, done: set<int>, ch: int)
    requires ch !in done
    ensures Slot(Some(s), Some(ch)) !in SubjectChapterSlots(s, done)
    ensures SubjectChapterSlots(s, done) + {Slot(Some(s), Some(ch))} == SubjectChapterSlots(s, done + {ch})
  {
  }

  /** The inner loop `for ch in chap_qs.filter(subject_id=s.id)`. */
  method CreateForSubjectChapters(store: Store, d: Draft, s: int, chs: set<int>, now: int) returns (created: nat)
    requires store.Valid() && d.classId in store.classes && s in store.subjects && chs <= store.chapters.Keys
    modifies store`questions, store`nextId
    ensures store.Valid()
    ensures Appended(old(store.questions), store.questions, d, now, SubjectChapterSlots(s, chs))
    ensures created == |store.questions| - |old(store.questions)|
  {
    var left := chs;
    ghost var done: set<int> := {};
    created := 0;
    AppendedNothing(store.questions, d, now);
    while left != {}
      invariant store.Valid()
      invariant left + done == chs && left !! done
      invariant Appended(old(store.questions), store.questions, d, now, SubjectChapterSlots(s, done))
      invariant created == |store.questions| - |old(store.questions)|
      decreases |left|
    {
      ghost var member := SomeMember(left);
      var ch :| ch in left;
      SubjectChapterSlotsStep(s, done, ch);
      AppendRow(store, d, Slot(Some(s), Some(ch)), now, old(store.questions), SubjectChapterSlots(s, done));
      left := left - {ch};
      done := done + {ch};
      created := created + 1;
    }
  }

  /** The pair rows of the subjects in `done` split into those of `done` less `s` and those
      of `s`. */
  lemma PairSlotsSplit(done: set<int>, s: int, chapSet: set<int>, chapters: map<int, Chapter>)
    requires s !in done
    ensures PairSlots(done + {s}, chapSet, chapters)
            == PairSlots(done, chapSet, chapters) + SubjectChapterSlots(s, ChaptersOfSubject(chapSet, chapters, s))
    ensures PairSlots(done, chapSet, chapters) !! SubjectChapterSlots(s, ChaptersOfSubject(chapSet, chapters, s))
  {
    var mine := SubjectChapterSlots(s, ChaptersOfSubject(chapSet, chapters, s));
    forall slot ensures slot in PairSlots(done + {s}, chapSet, chapters) <==> slot in PairSlots(done, chapSet, chapters) + mine {
      PairSlotsMembers(done + {s}, chapSet, chapters, slot);
      PairSlotsMembers(done, chapSet, chapters, slot);
      if slot in mine {
        var ch :| ch in ChaptersOfSubject(chapSet, chapters, s) && slot == Slot(Some(s), Some(ch));
      }
      if slot.subjectId == Some(s) && slot.chapterId.Some? && slot.chapterId.value in ChaptersOfSubject(chapSet, chapters, s) {
        assert slot == Slot(Some(s), Some(slot.chapterId.value));
      }
    }
    forall slot | slot in mine ensures slot !in PairSlots(done, chapSet, chapters) {
      PairSlotsMembers(done, chapSet, chapters, slot);
    }
  }

  /** The nested loops for subjects and chapters. */
  method CreateForPairs(store: Store, d: Draft, subjSet: set<int>, chapSet: set<int>, now: int) returns (created: nat)
    requires store.Valid() && d.classId in store.classes
    requires subjSet <= store.subjects.Keys && chapSet <= store.chapters.Keys
    modifies store`questions, store`nextId
    ensures store.Valid()
    ensures Appended(old(store.questions), store.questions, d, now, PairSlots(subjSet, chapSet, store.chapters))
    ensures created == |PairSlots(subjSet, chapSet, store.chapters)|
  {
    var left := subjSet;
    ghost var done: set<int> := {};
    created := 0;
    AppendedNothing(store.questions, d, now);
    while left != {}
      invariant store.Valid()
      invariant left + done == subjSet && left !! done
      invariant Appended(old(store.questions), store.questions, d, now, PairSlots(done, chapSet, store.chapters))
      invariant created == |store.questions| - |old(store.questions)|
      decreases |left|
    {
      ghost var member := SomeMember(left);
      var s :| s in left;
      ghost var mid := store.questions;
      var n := CreateForSubjectChapters(store, d, s, ChaptersOfSubject(chapSet, store.chapters, s), now);
      PairSlotsSplit(done, s, chapSet, store.chapters);
      AppendedJoin(old(store.questions), mid, store.questions, d, now, PairSlots(done, chapSet, store.chapters),
                   SubjectChapterSlots(s, ChaptersOfSubject(chapSet, store.chapters, s)));
      left := left - {s};
      done := done + {s};
      created := created + n;
    }
    AppendedCount(old(store.questions), store.questions, d, now, PairSlots(done, chapSet, store.chapters));
  }

  /** The four branches of the view. */
  method CreatePlanned(store: Store, d: Draft, subjSet: set<int>, chapSet: set<int>, now: int) returns (created: nat)
    requires store.Valid() && d.classId in store.classes
    requires subjSet <= store.subjects.Keys && chapSet <= store.chapters.Keys
    modifies store`questions, store`nextId
    ensures store.Valid()
    ensures Appended(old(store.questions), store.questions, d, now, PlannedSlots(subjSet, chapSet, store.chapters))
    ensures created == |PlannedSlots(subjSet, chapSet, store.chapters)|
  {
    if subjSet != {} && chapSet != {} {
      created := CreateForPairs(store, d, subjSet, chapSet, now);
    } else if subjSet != {} {
      created := CreateForSubjects(store, d, subjSet, now);
    } else if chapSet != {} {
      created := CreateForChapters(store, d, chapSet, now);
    } else {
      AppendedNothing(store.questions, d, now);
      AppendRow(store, d, Slot(None, None), now, store.questions, {});
      created := 1;
    }
  }

  /** The ids each list names, with the branch the view takes and the rows it plans. */
  function Plan(post: QueryDict, get: QueryDict, d: Draft, subjects: map<int, Subject>,
                chapters: map<int, Chapter>): (r: Option<set<Slot>>)
    ensures r.None? <==> !AllInts(TickedOrCurrent(post, get, "subjects", "subject_id"))
                         || !AllInts(TickedOrCurrent(post, get, "chapters", "chapter_id"))
  {
    var subjectIds := ParseIds(TickedOrCurrent(post, get, "subjects", "subject_id"));
    var chapterIds := ParseIds(TickedOrCurrent(post, get, "chapters", "chapter_id"));
    if subjectIds.None? || chapterIds.None? then None
    else
      Some(PlannedSlots(SubjectsOfClass(ToSet(subjectIds.value), subjects, d.classId),
                        ExistingChapters(ToSet(chapterIds.value), chapters), chapters))
  }

  /** `create_question_from_modal`: rejects a request without an existing class or with a
      blank text, and otherwise appends one row per planned slot and reports how many. */
  method CreateQuestionFromModal(store: Store, post: QueryDict, get: QueryDict, now: int) returns (reply: ModalReply)
    requires store.Valid()
    modifies store`questions, store`nextId
    ensures store.Valid()
    ensures reply.BadRequest? <==> CheckRequest(post, store.classes).Rejected?
    ensures reply.BadRequest? ==> reply.error == CheckRequest(post, store.classes).error
    ensures reply.ServerError? <==>
              CheckRequest(post, store.classes).Accepted? &&
              Plan(post, get, CheckRequest(post, store.classes).draft, store.subjects, store.chapters).None?
    ensures !reply.Created? ==> store.questions == old(store.questions) && store.nextId == old(store.nextId)
    ensures reply.Created? ==>
              var d := CheckRequest(post, store.classes).draft;
              var slots := Plan(post, get, d, store.subjects, store.chapters).value;
              && Appended(old(store.questions), store.questions, d, now, slots)
              && reply.created == |slots|
              && reply.errors == []
  {
    var checked := CheckRequest(post, store.classes);
    if checked.Rejected? {
      return BadRequest(checked.error);
    }
    reply := CreateFromDraft(store, post, get, checked.draft, now);
  }

  /** The part of the view after validation: reads the lists and creates the planned rows. */
  method CreateFromDraft(store: Store, post: QueryDict, get: QueryDict, d: Draft, now: int) returns (reply: ModalReply)
    requires store.Valid() && d.classId in store.classes
    modifies store`questions, store`nextId
    ensures store.Valid()
    ensures !reply.BadRequest?
    ensures reply.ServerError? <==> Plan(post, get, d, store.subjects, store.chapters).None?
    ensures !reply.Created? ==> store.questions == old(store.questions) && store.nextId == old(store.nextId)
    ensures reply.Created? ==>
              var slots := Plan(post, get, d, store.subjects, store.chapters).value;
              && Appended(old(store.questions), store.questions, d, now, slots)
              && reply.created == |slots|
              && reply.errors == []
  {
    var subjectIds := ParseIds(TickedOrCurrent(post, get, "subjects", "subject_id"));
    var chapterIds := ParseIds(TickedOrCurrent(post, get, "chapters", "chapter_id"));
    if subjectIds.None? || chapterIds.None? {
      return ServerError;
    }
    var subjSet := SubjectsOfClass(ToSet(subjectIds.value), store.subjects, d.classId);
    var chapSet := ExistingChapters(ToSet(chapterIds.value), store.chapters);
    var created := CreatePlanned(store, d, subjSet, chapSet, now);
    reply := Created(created, []);
  }
}
