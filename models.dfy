/**
 * The database tables of the application and the rules the schema declares:
 * the taxonomy ClassName -> Subject -> Chapter (unique class names, each
 * subject owned by one class, each chapter by one subject, deletes cascading
 * down the chain), one profile per user, questions and question papers.
 * `Store` is the database as one object; its methods are the row inserts and
 * deletes the views perform, each changing only the tables it names.
 */
module Models {
  import opened Wrappers

  datatype User = User(id: int, username: string)

  /** `Profile`: one-to-one with its user. */
  datatype Profile = Profile(userId: int, division: string, district: string, thana: string)

  datatype ClassName = ClassName(id: int, name: string)

  datatype Subject = Subject(id: int, name: string, classId: int)

  datatype Chapter = Chapter(id: int, name: string, subjectId: int)

  /** A question row, with the fields the views read and write. */
  datatype Question = Question(
    id: int,
    text: string,
    questionType: string,
    classId: int,
    subjectId: Option<int>,
    chapterId: Option<int>,
    optionA: Option<string>,
    optionB: Option<string>,
    optionC: Option<string>,
    optionD: Option<string>,
    correctOption: Option<string>,
    createdAt: int)

  /** A question paper row; `questions` is its many-to-many link to question rows. */
  datatype QuestionPaper = QuestionPaper(
    id: int,
    programName: string,
    creator: int,
    classLevel: Option<int>,
    questionType: string,
    numberOfQuestions: int,
    questions: set<int>,
    createdAt: int)

  // ---------------------------------------------------------------------------
  // String renderings (`__str__`)

  /** A profile renders as its user's username followed by " Profile". */
  function ProfileStr(p: Profile, owner: User): (r: string)
    requires owner.id == p.userId
    ensures |r| == |owner.username| + 8
    ensures r[..|owner.username|] == owner.username
    ensures r[|owner.username|..] == " Profile"
  {
    owner.username + " Profile"
  }

  /** A class renders as its bare name. */
  function ClassNameStr(c: ClassName): string {
    c.name
  }

  /** A subject renders as its name, " - ", and the name of its class. */
  function SubjectStr(s: Subject, owner: ClassName): (r: string)
    requires owner.id == s.classId
    ensures |r| == |s.name| + 3 + |owner.name|
    ensures r[..|s.name|] == s.name
    ensures r[|s.name|..|s.name| + 3] == " - "
    ensures r[|s.name| + 3..] == owner.name
  {
    s.name + " - " + owner.name
  }

  /** A chapter renders as its name and, in parentheses, the name of its subject. */
  function ChapterStr(c: Chapter, owner: Subject): (r: string)
    requires owner.id == c.subjectId
    ensures |r| == |c.name| + 2 + |owner.name| + 1
    ensures r[..|c.name|] == c.name
    ensures r[|c.name|..|c.name| + 2] == " ("
    ensures r[|c.name| + 2..|r| - 1] == owner.name
    ensures r[|r| - 1] == ')'
  {
    c.name + " (" + owner.name + ")"
  }

  /** Two strings followed by the same tail are equal exactly when the heads are. */
  lemma SameTail(a: string, b: string, tail: string)
    ensures a + tail == b + tail <==> a == b
  {
    if a + tail == b + tail {
      assert |a| == |b|;
      assert a == (a + tail)[..|a|];
      assert b == (b + tail)[..|b|];
    }
  }

  /** Two subjects of the same class render alike exactly when their names are equal. */
  lemma SubjectStrDistinguishesNames(s1: Subject, s2: Subject, owner: ClassName)
    requires owner.id == s1.classId && owner.id == s2.classId
    ensures SubjectStr(s1, owner) == SubjectStr(s2, owner) <==> s1.name == s2.name
  {
    assert SubjectStr(s1, owner) == s1.name + (" - " + owner.name);
    assert SubjectStr(s2, owner) == s2.name + (" - " + owner.name);
    SameTail(s1.name, s2.name, " - " + owner.name);
  }

  /** Two chapters of the same subject render alike exactly when their names are equal. */
  lemma ChapterStrDistinguishesNames(c1: Chapter, c2: Chapter, owner: Subject)
    requires owner.id == c1.subjectId && owner.id == c2.subjectId
    ensures ChapterStr(c1, owner) == ChapterStr(c2, owner) <==> c1.name == c2.name
  {
    assert ChapterStr(c1, owner) == c1.name + (" (" + owner.name + ")");
    assert ChapterStr(c2, owner) == c2.name + (" (" + owner.name + ")");
    SameTail(c1.name, c2.name, " (" + owner.name + ")");
  }

  /** Profiles of users with different user names render differently. */
  lemma ProfileStrDistinguishesUsers(p1: Profile, u1: User, p2: Profile, u2: User)
    requires u1.id == p1.userId && u2.id == p2.userId
    ensures ProfileStr(p1, u1) == ProfileStr(p2, u2) <==> u1.username == u2.username
  {
    SameTail(u1.username, u2.username, " Profile");
  }

  // ---------------------------------------------------------------------------
  // Integrity of the tables

  ghost predicate UniqueClassNames(classes: map<int, ClassName>) {
    forall a, b :: a in classes && b in classes && a != b ==> classes[a].name != classes[b].name
  }

  /** In a table with unique class names no two classes render alike. */
  lemma ClassNamesRenderDistinct(classes: map<int, ClassName>, a: int, b: int)
    requires UniqueClassNames(classes)
    requires a in classes && b in classes && a != b
    ensures ClassNameStr(classes[a]) != ClassNameStr(classes[b])
  {
  }

  predicate NameTaken(classes: map<int, ClassName>, name: string) {
    exists c :: c in classes && classes[c].name == name
  }

  ghost predicate ClassesValid(classes: map<int, ClassName>, nextId: int) {
    && (forall c :: c in classes ==> classes[c].id == c && 0 < c < nextId)
    && UniqueClassNames(classes)
  }

  ghost predicate SubjectsValid(subjects: map<int, Subject>, classes: map<int, ClassName>, nextId: int) {
    forall s :: s in subjects ==> subjects[s].id == s && 0 < s < nextId && subjects[s].classId in classes
  }

  ghost predicate ChaptersValid(chapters: map<int, Chapter>, subjects: map<int, Subject>, nextId: int) {
    forall c :: c in chapters ==> chapters[c].id == c && 0 < c < nextId && chapters[c].subjectId in subjects
  }

  /** The foreign keys of a question row refer to existing rows. */
  predicate QuestionRefsValid(q: Question, classes: map<int, ClassName>, subjects: map<int, Subject>,
                              chapters: map<int, Chapter>) {
    && q.classId in classes
    && (q.subjectId.Some? ==> q.subjectId.value in subjects)
    && (q.chapterId.Some? ==> q.chapterId.value in chapters)
  }

  ghost predicate DistinctIds(qs: seq<Question>) {
    forall i, j :: 0 <= i < j < |qs| ==> qs[i].id != qs[j].id
  }

  ghost predicate QuestionsValid(qs: seq<Question>, classes: map<int, ClassName>, subjects: map<int, Subject>,
                                 chapters: map<int, Chapter>, nextId: int) {
    && (forall i :: 0 <= i < |qs| ==> 0 < qs[i].id < nextId && QuestionRefsValid(qs[i], classes, subjects, chapters))
    && DistinctIds(qs)
  }

  function QuestionIds(qs: seq<Question>): set<int> {
    set q | q in qs :: q.id
  }

  ghost predicate PapersValid(papers: map<int, QuestionPaper>, qs: seq<Question>, nextId: int) {
    forall p :: p in papers ==> papers[p].id == p && 0 < p < nextId && papers[p].questions <= QuestionIds(qs)
  }

  ghost predicate UsersValid(users: map<int, User>, nextId: int) {
    forall u :: u in users ==> users[u].id == u && 0 < u < nextId
  }

  /** Profiles are keyed by their user, so a user has at most one. */
  ghost predicate ProfilesValid(profiles: map<int, Profile>, users: map<int, User>) {
    forall u :: u in profiles ==> profiles[u].userId == u && u in users
  }

  // ---------------------------------------------------------------------------
  // Cascades

  /** The questions whose foreign keys all still resolve, in their original order. */
  function Surviving(qs: seq<Question>, classes: map<int, ClassName>, subjects: map<int, Subject>,
                     chapters: map<int, Chapter>): (r: seq<Question>)
    ensures forall q :: q in r <==> q in qs && QuestionRefsValid(q, classes, subjects, chapters)
    ensures DistinctIds(qs) ==> DistinctIds(r)
    ensures |r| <= |qs|
  {
    if qs == [] then []
    else
      var rest := Surviving(qs[1..], classes, subjects, chapters);
      assert forall q :: q in qs[1..] ==> q in qs;
      if QuestionRefsValid(qs[0], classes, subjects, chapters) then
        assert DistinctIds(qs) ==> forall q :: q in qs[1..] ==> q.id != qs[0].id;
        [qs[0]] + rest
      else rest
  }

  /** Each paper keeps only its links to the questions in `ids`. */
  function PapersRestricted(papers: map<int, QuestionPaper>, ids: set<int>): (r: map<int, QuestionPaper>)
    ensures r.Keys == papers.Keys
    ensures forall p :: p in r ==> r[p] == papers[p].(questions := papers[p].questions * ids)
  {
    map p | p in papers :: papers[p].(questions := papers[p].questions * ids)
  }

  class Store {
    var users: map<int, User>
    var profiles: map<int, Profile>
    var classes: map<int, ClassName>
    var subjects: map<int, Subject>
    var chapters: map<int, Chapter>
    var questions: seq<Question>
    var papers: map<int, QuestionPaper>
    /** The next primary key to hand out; every key in use is below it. */
    var nextId: int

    /** The schema's constraints: unique class names, one profile per existing user, and
        foreign keys that resolve. */
    ghost predicate Valid()
      reads this
      ensures Valid() ==> UniqueClassNames(classes) && ProfilesValid(profiles, users)
      ensures Valid() ==> SubjectsValid(subjects, classes, nextId) && ChaptersValid(chapters, subjects, nextId)
    {
      && 0 < nextId
      && UsersValid(users, nextId)
      && ProfilesValid(profiles, users)
      && ClassesValid(classes, nextId)
      && SubjectsValid(subjects, classes, nextId)
      && ChaptersValid(chapters, subjects, nextId)
      && QuestionsValid(questions, classes, subjects, chapters, nextId)
      && PapersValid(papers, questions, nextId)
    }

    constructor ()
      ensures Valid()
      ensures users == map[] && profiles == map[] && classes == map[] && subjects == map[]
      ensures chapters == map[] && questions == [] && papers == map[]
    {
      users, profiles, classes, subjects, chapters := map[], map[], map[], map[], map[];
      questions, papers, nextId := [], map[], 1;
    }

    /** `User.objects.create_user(username=...)`: a new user with a fresh id. */
    method CreateUser(username: string) returns (u: User)
      requires Valid()
      modifies this`users, this`nextId
      ensures Valid()
      ensures u == User(old(nextId), username) && u.id !in old(users)
      ensures users == old(users)[u.id := u]
    {
      u := User(nextId, username);
      users := users[u.id := u];
      nextId := nextId + 1;
    }

    /** `Profile.objects.create(user=...)`: refused when the user is missing or already has one. */
    method CreateProfile(userId: int, division: string, district: string, thana: string) returns (ok: bool)
      requires Valid()
      modifies this`profiles
      ensures Valid()
      ensures ok <==> userId in users && userId !in old(profiles)
      ensures profiles == if ok then old(profiles)[userId := Profile(userId, division, district, thana)]
                          else old(profiles)
    {
      ok := userId in users && userId !in profiles;
      if ok {
        profiles := profiles[userId := Profile(userId, division, district, thana)];
      }
    }

    /** `ClassName.objects.create(name=...)`: refused when the name is taken. */
    method CreateClass(name: string) returns (r: Option<ClassName>)
      requires Valid()
      modifies this`classes, this`nextId
      ensures Valid()
      ensures r.None? <==> NameTaken(old(classes), name)
      ensures r.None? ==> classes == old(classes) && nextId == old(nextId)
      ensures r.Some? ==> r.value == ClassName(old(nextId), name) && classes == old(classes)[r.value.id := r.value]
    {
      if NameTaken(classes, name) {
        return None;
      }
      var c := ClassName(nextId, name);
      classes := classes[c.id := c];
      nextId := nextId + 1;
      r := Some(c);
    }

    /** `Subject.objects.create(name=..., class_name=...)`: refused when the class is missing. */
    method CreateSubject(name: string, classId: int) returns (r: Option<Subject>)
      requires Valid()
      modifies this`subjects, this`nextId
      ensures Valid()
      ensures r.None? <==> classId !in classes
      ensures r.None? ==> subjects == old(subjects) && nextId == old(nextId)
      ensures r.Some? ==> r.value == Subject(old(nextId), name, classId) && subjects == old(subjects)[r.value.id := r.value]
    {
      if classId !in classes {
        return None;
      }
      var s := Subject(nextId, name, classId);
      subjects := subjects[s.id := s];
      nextId := nextId + 1;
      r := Some(s);
    }

    /** `Chapter.objects.create(name=..., subject=...)`: refused when the subject is missing. */
    method CreateChapter(name: string, subjectId: int) returns (r: Option<Chapter>)
      requires Valid()
      modifies this`chapters, this`nextId
      ensures Valid()
      ensures r.None? <==> subjectId !in subjects
      ensures r.None? ==> chapters == old(chapters) && nextId == old(nextId)
      ensures r.Some? ==> r.value == Chapter(old(nextId), name, subjectId) && chapters == old(chapters)[r.value.id := r.value]
    {
      if subjectId !in subjects {
        return None;
      }
      var c := Chapter(nextId, name, subjectId);
      chapters := chapters[c.id := c];
      nextId := nextId + 1;
      r := Some(c);
    }

    /** `Question.objects.create(...)`: appends one row with a fresh key. */
    method CreateQuestion(text: string, questionType: string, classId: int, subjectId: Option<int>,
                          chapterId: Option<int>, optionA: Option<string>, optionB: Option<string>,
                          optionC: Option<string>, optionD: Option<string>, correctOption: Option<string>,
                          now: int) returns (q: Question)
      requires Valid()
      requires classId in classes
      requires subjectId.Some? ==> subjectId.value in subjects
      requires chapterId.Some? ==> chapterId.value in chapters
      modifies this`questions, this`nextId
      ensures Valid()
      ensures q == Question(old(nextId), text, questionType, classId, subjectId, chapterId,
                            optionA, optionB, optionC, optionD, correctOption, now)
      ensures q.id !in QuestionIds(old(questions)) && nextId == old(nextId) + 1
      ensures questions == old(questions) + [q]
    {
      q := Question(nextId, text, questionType, classId, subjectId, chapterId,
                    optionA, optionB, optionC, optionD, correctOption, now);
      questions := questions + [q];
      nextId := nextId + 1;
    }

    /** `QuestionPaper.objects.create(...)` followed by `paper.questions.set(...)`. */
    method CreatePaper(programName: string, creator: int, classLevel: Option<int>, questionType: string,
                       numberOfQuestions: int, questionIds: set<int>, now: int) returns (p: QuestionPaper)
      requires Valid()
      requires questionIds <= QuestionIds(questions)
      modifies this`papers, this`nextId
      ensures Valid()
      ensures p == QuestionPaper(old(nextId), programName, creator, classLevel, questionType,
                                 numberOfQuestions, questionIds, now)
      ensures p.id !in old(papers) && nextId == old(nextId) + 1
      ensures papers == old(papers)[p.id := p]
    {
      p := QuestionPaper(nextId, programName, creator, classLevel, questionType, numberOfQuestions, questionIds, now);
      papers := papers[p.id := p];
      nextId := nextId + 1;
    }

    /** `paper.delete()`: the row and its question links go; the questions stay. */
    method RemovePaper(id: int)
      requires Valid() && id in papers
      modifies this`papers
      ensures Valid()
      ensures papers == old(papers) - {id}
    {
      papers := papers - {id};
    }

    /** `q.question_type = t; q.save(update_fields=['question_type'])`. */
    method SetQuestionType(i: nat, t: string)
      requires Valid() && i < |questions|
      modifies this`questions
      ensures Valid()
      ensures questions == old(questions)[i := old(questions)[i].(questionType := t)]
    {
      questions := questions[i := questions[i].(questionType := t)];
      assert QuestionIds(questions) == QuestionIds(old(questions)) by {
        forall x | x in QuestionIds(old(questions)) ensures x in QuestionIds(questions) {
          var k :| 0 <= k < |old(questions)| && old(questions)[k].id == x;
          assert questions[k].id == x;
        }
      }
    }

    /** Removes the questions whose foreign keys no longer resolve, and their paper links. */
    method DropOrphanQuestions()
      requires 0 < nextId && UsersValid(users, nextId) && ProfilesValid(profiles, users)
      requires ClassesValid(classes, nextId) && SubjectsValid(subjects, classes, nextId)
      requires ChaptersValid(chapters, subjects, nextId)
      requires forall i :: 0 <= i < |questions| ==> 0 < questions[i].id < nextId
      requires DistinctIds(questions)
      requires forall p :: p in papers ==> papers[p].id == p && 0 < p < nextId
      modifies this`questions, this`papers
      ensures Valid()
      ensures questions == Surviving(old(questions), classes, subjects, chapters)
      ensures papers == PapersRestricted(old(papers), QuestionIds(questions))
    {
      var kept := Surviving(questions, classes, subjects, chapters);
      forall i | 0 <= i < |kept| ensures 0 < kept[i].id < nextId {
        assert kept[i] in questions;
      }
      questions := kept;
      papers := PapersRestricted(papers, QuestionIds(kept));
    }

    /** Deleting a class deletes its subjects, their chapters, and every question that
        referred to any of them (ON DELETE CASCADE down the taxonomy). */
    method DeleteClass(id: int)
      requires Valid()
      modifies this`classes, this`subjects, this`chapters, this`questions, this`papers
      ensures Valid()
      ensures classes == old(classes) - {id}
      ensures subjects == map s | s in old(subjects) && old(subjects)[s].classId != id :: old(subjects)[s]
      ensures chapters == map c | c in old(chapters) && old(chapters)[c].subjectId in subjects :: old(chapters)[c]
      ensures questions == Surviving(old(questions), classes, subjects, chapters)
      ensures papers == PapersRestricted(old(papers), QuestionIds(questions))
    {
      classes := classes - {id};
      subjects := map s | s in subjects && subjects[s].classId != id :: subjects[s];
      chapters := map c | c in chapters && chapters[c].subjectId in subjects :: chapters[c];
      DropOrphanQuestions();
    }

    /** Deleting a subject deletes its chapters and the questions that referred to either. */
    method DeleteSubject(id: int)
      requires Valid()
      modifies this`subjects, this`chapters, this`questions, this`papers
      ensures Valid()
      ensures subjects == old(subjects) - {id}
      ensures chapters == map c | c in old(chapters) && old(chapters)[c].subjectId != id :: old(chapters)[c]
      ensures questions == Surviving(old(questions), classes, subjects, chapters)
      ensures papers == PapersRestricted(old(papers), QuestionIds(questions))
    {
      subjects := subjects - {id};
      chapters := map c | c in chapters && chapters[c].subjectId != id :: chapters[c];
      DropOrphanQuestions();
    }

    /** Deleting a user deletes the user's profile. */
    method DeleteUser(id: int)
      requires Valid()
      modifies this`users, this`profiles
      ensures Valid()
      ensures users == old(users) - {id} && profiles == old(profiles) - {id}
    {
      users := users - {id};
      profiles := profiles - {id};
    }
  }
}
