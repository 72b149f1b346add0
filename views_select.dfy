/**
 * `teacher_question_select`: the page on which a teacher narrows the question
 * bank down by class, subject, chapter and question type. The dropdowns are
 * filled from whatever of class and subject is given; the questions are shown
 * only when all four filters are given, filtered by exact equality, newest
 * first, and cut down to the requested count.
 */
module SelectView {
  import opened Wrappers
  import opened PyStr
  import opened Http
  import opened Models

  /** The four filters the question list requires, as parsed. */
  datatype Criteria = Criteria(classId: int, subjectId: int, chapterId: int, questionType: string)

  /** `Question.objects.filter(class_name_id=.., subject_id=.., chapter_id=.., question_type=..)`
      for one row. */
  predicate Matches(q: Question, c: Criteria) {
    && q.classId == c.classId
    && q.subjectId == Some(c.subjectId)
    && q.chapterId == Some(c.chapterId)
    && q.questionType == c.questionType
  }

  /** What the view hands to its template, or the server error a malformed id causes. */
  datatype Page =
    | ServerError
    | Rendered(classes: map<int, ClassName>, subjects: map<int, Subject>, chapters: map<int, Chapter>,
               questions: seq<Question>, showQuestions: bool)

  /** `Subject.objects.filter(class_name_id=c)`. */
  function SubjectsOf(subjects: map<int, Subject>, c: int): (r: map<int, Subject>)
    ensures forall s :: s in r <==> s in subjects && subjects[s].classId == c
    ensures forall s :: s in r ==> r[s] == subjects[s]
  {
    map s | s in subjects && subjects[s].classId == c :: subjects[s]
  }

  /** `Chapter.objects.filter(subject_id=s)`. */
  function ChaptersOf(chapters: map<int, Chapter>, s: int): (r: map<int, Chapter>)
    ensures forall ch :: ch in r <==> ch in chapters && chapters[ch].subjectId == s
    ensures forall ch :: ch in r ==> r[ch] == chapters[ch]
  {
    map ch | ch in chapters && chapters[ch].subjectId == s :: chapters[ch]
  }

  /** The rows matching every filter, in table order. */
  function Matching(qs: seq<Question>, c: Criteria): (r: seq<Question>)
    ensures forall q :: q in r <==> q in qs && Matches(q, c)
    ensures forall i :: 0 <= i < |r| ==> Matches(r[i], c)
    ensures multiset(r) <= multiset(qs)
  {
    if qs == [] then []
    else
      var rest := Matching(qs[1..], c);
      assert qs == [qs[0]] + qs[1..];
      if Matches(qs[0], c) then [qs[0]] + rest else rest
  }

  /** Ordered by `created_at`, newest first. */
  ghost predicate NewestFirstOrder(qs: seq<Question>) {
    forall i, j :: 0 <= i < j < |qs| ==> qs[i].createdAt >= qs[j].createdAt
  }

  /** Places `q` in front of the first row of `s` that is not newer than it. */
  function InsertNewest(q: Question, s: seq<Question>): (r: seq<Question>)
    requires NewestFirstOrder(s)
    ensures NewestFirstOrder(r)
    ensures multiset(r) == multiset(s) + multiset{q}
  {
    if s == [] || q.createdAt >= s[0].createdAt then [q] + s
    else
      var rest := InsertNewest(q, s[1..]);
      assert s == [s[0]] + s[1..];
      NoNewerThanHead(s, q, rest);
      NewerInFront(s[0], rest);
      [s[0]] + rest
  }

  /** Inserting `q`, older than the head of `s`, into the tail of `s` leaves nothing newer
      than that head. */
  lemma NoNewerThanHead(s: seq<Question>, q: Question, rest: seq<Question>)
    requires NewestFirstOrder(s) && s != [] && q.createdAt < s[0].createdAt
    requires multiset(rest) == multiset(s[1..]) + multiset{q}
    ensures forall k :: 0 <= k < |rest| ==> s[0].createdAt >= rest[k].createdAt
  {
    forall k | 0 <= k < |rest| ensures s[0].createdAt >= rest[k].createdAt {
      assert rest[k] in multiset(s[1..]) + multiset{q};
      if rest[k] != q {
        assert rest[k] in s[1..];
      }
    }
  }

  /** A row no older than every row of an ordered list can go in front of it. */
  lemma NewerInFront(x: Question, s: seq<Question>)
    requires NewestFirstOrder(s)
    requires forall k :: 0 <= k < |s| ==> x.createdAt >= s[k].createdAt
    ensures NewestFirstOrder([x] + s)
  {
    forall i, j | 0 <= i < j < |s| + 1 ensures ([x] + s)[i].createdAt >= ([x] + s)[j].createdAt {
      if i > 0 {
        assert ([x] + s)[i] == s[i - 1];
      }
      assert ([x] + s)[j] == s[j - 1];
    }
  }

  /** `.order_by('-created_at')`: the same rows, newest first. */
  function NewestFirst(qs: seq<Question>): (r: seq<Question>)
    ensures NewestFirstOrder(r)
    ensures multiset(r) == multiset(qs)
    ensures |r| == |qs|
  {
    if qs == [] then []
    else
      assert qs == [qs[0]] + qs[1..];
      InsertNewest(qs[0], NewestFirst(qs[1..]))
  }

  function Min(a: int, b: int): int {
    if a <= b then a else b
  }

  /** Used when the requested count is not an integer. */
  const DefaultCount := 20

  /** The `question_count` handling: a positive integer keeps that many rows, text that is
      not an integer keeps `DefaultCount`, and anything else keeps all of them. */
  function Limit(ordered: seq<Question>, count: Option<string>): (r: seq<Question>)
    ensures |r| <= |ordered| && r == ordered[..|r|]
  {
    if !Truthy(count) then ordered
    else
      match ParseInt(count.value)
      case None => ordered[..Min(DefaultCount, |ordered|)]
      case Some(n) => if n > 0 then ordered[..Min(n, |ordered|)] else ordered
  }

  /** The subject and chapter dropdowns of the page. */
  datatype Dropdowns = Dropdowns(subjects: map<int, Subject>, chapters: map<int, Chapter>)

  /** `class_id` (`subject_id`) is given but is not an integer. */
  predicate BadId(id: Option<string>) {
    Truthy(id) && ParseInt(id.value).None?
  }

  /** The dropdown lookups: the subjects of the given class and the chapters of the given
      subject, each empty when its id is not given; a given id that is not an integer makes
      its lookup a server error. */
  function ShownDropdowns(get: QueryDict, subjects: map<int, Subject>, chapters: map<int, Chapter>)
    : (r: Option<Dropdowns>)
    ensures r.None? <==> BadId(Get(get, "class_id")) || BadId(Get(get, "subject_id"))
    ensures r.Some? && Truthy(Get(get, "class_id")) ==>
              forall s :: s in r.value.subjects <==>
                s in subjects && subjects[s].classId == ParseInt(Get(get, "class_id").value).value
    ensures r.Some? && !Truthy(Get(get, "class_id")) ==> r.value.subjects == map[]
    ensures r.Some? && Truthy(Get(get, "subject_id")) ==>
              forall ch :: ch in r.value.chapters <==>
                ch in chapters && chapters[ch].subjectId == ParseInt(Get(get, "subject_id").value).value
    ensures r.Some? && !Truthy(Get(get, "subject_id")) ==> r.value.chapters == map[]
  {
    var classId := Get(get, "class_id");
    var subjectId := Get(get, "subject_id");
    if BadId(classId) || BadId(subjectId) then None
    else
      var shownSubjects := if Truthy(classId) then SubjectsOf(subjects, ParseInt(classId.value).value) else map[];
      var shownChapters := if Truthy(subjectId) then ChaptersOf(chapters, ParseInt(subjectId.value).value) else map[];
      Some(Dropdowns(shownSubjects, shownChapters))
  }

  /** `teacher_question_select` on the tables and the request. `class_id` and `subject_id`
      reach an integer lookup whenever they are given, and `chapter_id` once all four filters
      are given: text that is not an integer there is a server error. */
  function TeacherQuestionSelect(verb: string, get: QueryDict, classes: map<int, ClassName>,
                                 subjects: map<int, Subject>, chapters: map<int, Chapter>,
                                 questions: seq<Question>): (r: Page)
    ensures r.Rendered? ==> r.classes == classes
    ensures r.Rendered? && r.showQuestions ==> verb == "GET" && AllFiltersGiven(get)
    ensures r.Rendered? && !r.showQuestions ==> r.questions == []
  {
    if verb != "GET" then Rendered(classes, map[], map[], [], false)
    else
      match ShownDropdowns(get, subjects, chapters)
      case None => ServerError
      case Some(d) =>
        if !AllFiltersGiven(get) then Rendered(classes, d.subjects, d.chapters, [], false)
        else
          match ParseInt(Get(get, "chapter_id").value)
          case None => ServerError
          case Some(ch) =>
            var c := Criteria(ParseInt(Get(get, "class_id").value).value,
                              ParseInt(Get(get, "subject_id").value).value,
                              ch, Get(get, "question_type").value);
            var ordered := NewestFirst(Matching(questions, c));
            Rendered(classes, d.subjects, d.chapters, Limit(ordered, Get(get, "question_count")), true)
  }

  /** All four filters are given. */
  predicate AllFiltersGiven(get: QueryDict) {
    && Truthy(Get(get, "class_id"))
    && Truthy(Get(get, "subject_id"))
    && Truthy(Get(get, "chapter_id"))
    && Truthy(Get(get, "question_type"))
  }

  /** The filters of a request that gives all four, when its three ids are integers. */
  function RequestedCriteria(get: QueryDict): (r: Option<Criteria>)
    requires AllFiltersGiven(get)
    ensures r.Some? <==> && ParseInt(Get(get, "class_id").value).Some?
                         && ParseInt(Get(get, "subject_id").value).Some?
                         && ParseInt(Get(get, "chapter_id").value).Some?
    ensures r.Some? ==> && r.value.classId == ParseInt(Get(get, "class_id").value).value
                        && r.value.subjectId == ParseInt(Get(get, "subject_id").value).value
                        && r.value.chapterId == ParseInt(Get(get, "chapter_id").value).value
                        && r.value.questionType == Get(get, "question_type").value
  {
    var c := ParseInt(Get(get, "class_id").value);
    var s := ParseInt(Get(get, "subject_id").value);
    var ch := ParseInt(Get(get, "chapter_id").value);
    if c.Some? && s.Some? && ch.Some? then
      Some(Criteria(c.value, s.value, ch.value, Get(get, "question_type").value))
    else None
  }

  /** Without all four filters no question is shown; the page is still rendered unless a
      given class or subject id is not an integer. */
  lemma SelectGate(verb: string, get: QueryDict, classes: map<int, ClassName>, subjects: map<int, Subject>,
                   chapters: map<int, Chapter>, questions: seq<Question>)
    requires verb != "GET" || !AllFiltersGiven(get)
    ensures var r := TeacherQuestionSelect(verb, get, classes, subjects, chapters, questions);
            && (r.Rendered? ==> r.questions == [] && !r.showQuestions)
            && (r.ServerError? <==>
                  (verb == "GET" &&
                   ((Truthy(Get(get, "class_id")) && ParseInt(Get(get, "class_id").value).None?) ||
                    (Truthy(Get(get, "subject_id")) && ParseInt(Get(get, "subject_id").value).None?))))
  {
  }

  /** Every rendered page lists every class, and the dropdowns `ShownDropdowns` computes. */
  lemma SelectDropdowns(verb: string, get: QueryDict, classes: map<int, ClassName>, subjects: map<int, Subject>,
                        chapters: map<int, Chapter>, questions: seq<Question>)
    ensures var r := TeacherQuestionSelect(verb, get, classes, subjects, chapters, questions);
            r.Rendered? ==>
              && r.classes == classes
              && (verb == "GET" ==> ShownDropdowns(get, subjects, chapters) == Some(Dropdowns(r.subjects, r.chapters)))
              && (verb != "GET" ==> r.subjects == map[] && r.chapters == map[])
  {
  }

  /** With all four filters given and parsed, the questions are shown, every one of them is a
      stored row with exactly the requested class, subject, chapter and type, and they are
      ordered newest first. */
  lemma SelectExactMatch(get: QueryDict, classes: map<int, ClassName>, subjects: map<int, Subject>,
                         chapters: map<int, Chapter>, questions: seq<Question>)
    requires AllFiltersGiven(get) && RequestedCriteria(get).Some?
    ensures var r := TeacherQuestionSelect("GET", get, classes, subjects, chapters, questions);
            && r.Rendered? && r.showQuestions
            && (forall i :: 0 <= i < |r.questions| ==>
                  r.questions[i] in questions && Matches(r.questions[i], RequestedCriteria(get).value))
            && NewestFirstOrder(r.questions)
  {
    var c := RequestedCriteria(get).value;
    var ordered := NewestFirst(Matching(questions, c));
    var r := TeacherQuestionSelect("GET", get, classes, subjects, chapters, questions);
    assert r.questions == Limit(ordered, Get(get, "question_count"));
    forall i | 0 <= i < |r.questions|
      ensures r.questions[i] in questions && Matches(r.questions[i], c)
    {
      assert r.questions[i] == ordered[i];
      assert ordered[i] in multiset(Matching(questions, c));
    }
  }

  /** A given all-filters request whose chapter id is not an integer is a server error. */
  lemma SelectBadChapterId(get: QueryDict, classes: map<int, ClassName>, subjects: map<int, Subject>,
                           chapters: map<int, Chapter>, questions: seq<Question>)
    requires AllFiltersGiven(get) && RequestedCriteria(get).None?
    ensures TeacherQuestionSelect("GET", get, classes, subjects, chapters, questions) == ServerError
  {
  }

  /** The list before the count is applied: every matching row, newest first. */
  function Ordered(get: QueryDict, questions: seq<Question>): (r: seq<Question>)
    requires AllFiltersGiven(get) && RequestedCriteria(get).Some?
    ensures NewestFirstOrder(r)
    ensures multiset(r) == multiset(Matching(questions, RequestedCriteria(get).value))
    ensures |r| == |Matching(questions, RequestedCriteria(get).value)|
  {
    NewestFirst(Matching(questions, RequestedCriteria(get).value))
  }

  /** A positive integer count `n` shows the first min(n, matches) rows of the ordered list. */
  lemma SelectPositiveCount(get: QueryDict, classes: map<int, ClassName>, subjects: map<int, Subject>,
                            chapters: map<int, Chapter>, questions: seq<Question>, n: int)
    requires AllFiltersGiven(get) && RequestedCriteria(get).Some?
    requires Truthy(Get(get, "question_count")) && ParseInt(Get(get, "question_count").value) == Some(n)
    requires n > 0
    ensures var r := TeacherQuestionSelect("GET", get, classes, subjects, chapters, questions);
            var all := Ordered(get, questions);
            && r.Rendered?
            && |r.questions| == Min(n, |Matching(questions, RequestedCriteria(get).value)|)
            && r.questions == all[..|r.questions|]
  {
  }

  /** A count that is not an integer shows the first min(20, matches) rows. */
  lemma SelectInvalidCount(get: QueryDict, classes: map<int, ClassName>, subjects: map<int, Subject>,
                           chapters: map<int, Chapter>, questions: seq<Question>)
    requires AllFiltersGiven(get) && RequestedCriteria(get).Some?
    requires Truthy(Get(get, "question_count")) && ParseInt(Get(get, "question_count").value).None?
    ensures var r := TeacherQuestionSelect("GET", get, classes, subjects, chapters, questions);
            var all := Ordered(get, questions);
            && r.Rendered?
            && |r.questions| == Min(DefaultCount, |Matching(questions, RequestedCriteria(get).value)|)
            && r.questions == all[..|r.questions|]
  {
  }

  /** No count, or an integer count of zero or less, shows every matching row. */
  lemma SelectAllMatches(get: QueryDict, classes: map<int, ClassName>, subjects: map<int, Subject>,
                         chapters: map<int, Chapter>, questions: seq<Question>)
    requires AllFiltersGiven(get) && RequestedCriteria(get).Some?
    requires var count := Get(get, "question_count");
             !Truthy(count) || (ParseInt(count.value).Some? && ParseInt(count.value).value <= 0)
    ensures var r := TeacherQuestionSelect("GET", get, classes, subjects, chapters, questions);
            && r.Rendered?
            && r.questions == Ordered(get, questions)
            && (forall q :: q in r.questions <==> q in questions && Matches(q, RequestedCriteria(get).value))
  {
    OrderedMembers(get, questions);
  }

  /** The ordered list holds exactly the stored rows that match. */
  lemma OrderedMembers(get: QueryDict, questions: seq<Question>)
    requires AllFiltersGiven(get) && RequestedCriteria(get).Some?
    ensures forall q :: q in Ordered(get, questions) <==> q in questions && Matches(q, RequestedCriteria(get).value)
  {
    var c := RequestedCriteria(get).value;
    var all := Ordered(get, questions);
    forall q ensures q in all <==> q in questions && Matches(q, c) {
      assert q in all <==> q in multiset(Matching(questions, c));
    }
  }
}
