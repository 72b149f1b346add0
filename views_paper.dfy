/**
 * The question-paper views: `prepare_paper_view`, which records the questions a
 * teacher selected as a new paper; `paper_delete_view`, which deletes a paper
 * of the signed-in user; and `delete_paper`, a second delete endpoint whose
 * not-found branch cannot be reached (see `DeletePaperAsWrittenNever404`).
 */
module PaperViews {
  import opened Wrappers
  import opened PyStr
  import opened Http
  import opened Models

  // ---------------------------------------------------------------------------
  // Resolving the selected ids

  /** `Question.objects.filter(id__in=ids)`: the stored rows whose key is selected. */
  function Resolved(qs: seq<Question>, ids: set<int>): (r: seq<Question>)
    ensures forall q :: q in r <==> q in qs && q.id in ids
    ensures DistinctIds(qs) ==> DistinctIds(r)
    ensures |r| <= |qs|
  {
    if qs == [] then []
    else
      var rest := Resolved(qs[1..], ids);
      assert forall q :: q in qs[1..] ==> q in qs;
      assert DistinctIds(qs) ==> forall q :: q in qs[1..] ==> q.id != qs[0].id;
      if qs[0].id in ids then [qs[0]] + rest else rest
  }

  /** `.first()` on an unordered queryset: the row with the smallest key. */
  function FirstByKey(qs: seq<Question>): (r: Question)
    requires qs != []
    ensures r in qs
    ensures forall q :: q in qs ==> r.id <= q.id
  {
    if |qs| == 1 then qs[0]
    else
      var rest := FirstByKey(qs[1..]);
      assert forall q :: q in qs ==> q == qs[0] || q in qs[1..];
      if qs[0].id <= rest.id then qs[0] else rest
  }

  /** The keys of the resolved rows are the selected keys that exist. */
  lemma ResolvedKeys(qs: seq<Question>, ids: set<int>)
    ensures QuestionIds(Resolved(qs, ids)) == ids * QuestionIds(qs)
  {
    var r := Resolved(qs, ids);
    forall x | x in ids * QuestionIds(qs) ensures x in QuestionIds(r) {
      var q :| q in qs && q.id == x;
      assert q in r;
    }
  }

  /** Rows with distinct keys are as many as their keys. */
  lemma {:induction false} DistinctKeysCount(qs: seq<Question>)
    requires DistinctIds(qs)
    ensures |QuestionIds(qs)| == |qs|
  {
    if qs != [] {
      var n := |qs| - 1;
      var init := qs[..n];
      assert DistinctIds(init);
      DistinctKeysCount(init);
      assert qs == init + [qs[n]];
      assert QuestionIds(qs) == QuestionIds(init) + {qs[n].id};
      assert qs[n].id !in QuestionIds(init) by {
        forall q | q in init ensures q.id != qs[n].id {
          var k :| 0 <= k < n && init[k] == q;
        }
      }
    }
  }

  /** In a table with distinct keys, `questions.count()` is the number of selected keys
      that exist. */
  lemma ResolvedCount(qs: seq<Question>, ids: set<int>)
    requires DistinctIds(qs)
    ensures |Resolved(qs, ids)| == |ids * QuestionIds(qs)|
  {
    ResolvedKeys(qs, ids);
    DistinctKeysCount(Resolved(qs, ids));
  }

  // ---------------------------------------------------------------------------
  // prepare_paper_view

  /** `f"Prepared: {school_name or 'Paper'}"`. */
  function ProgramName(schoolName: Option<string>): (r: string)
    ensures Truthy(schoolName) ==> r == "Prepared: " + schoolName.value
    ensures !Truthy(schoolName) ==> r == "Prepared: Paper"
  {
    "Prepared: " + (if Truthy(schoolName) then schoolName.value else "Paper")
  }

  /** What the view answers: a redirect back to the selection page, the server error an
      id that is not an integer causes, or the printable paper with its context. */
  datatype PrepareOutcome =
    | RedirectToSelect
    | ServerError
    | Prepared(paper: QuestionPaper, questions: seq<Question>, schoolName: Option<string>,
               duration: Option<string>, totalMarks: Option<string>, includeOmr: bool, showAnswers: bool)

  /** The paper the view records for a non-empty selection. */
  function PreparedPaper(id: int, schoolName: Option<string>, user: int, resolved: seq<Question>,
                         now: int): (p: QuestionPaper)
    requires resolved != []
    ensures p.id == id && p.creator == user && p.createdAt == now
    ensures p.programName == ProgramName(schoolName)
    ensures p.classLevel == Some(FirstByKey(resolved).classId)
    ensures p.questionType == "combined"
    ensures p.numberOfQuestions == |resolved|
    ensures p.questions == QuestionIds(resolved)
  {
    QuestionPaper(id, ProgramName(schoolName), user, Some(FirstByKey(resolved).classId), "combined",
                  |resolved|, QuestionIds(resolved), now)
  }

  /** `prepare_paper_view`: on a POST whose selected ids resolve to at least one stored
      question, records one new paper owned by `user` holding exactly those questions;
      otherwise changes nothing. */
  method PreparePaper(store: Store, verb: string, post: QueryDict, user: int, now: int)
    returns (out: PrepareOutcome)
    requires store.Valid()
    modifies store`papers, store`nextId
    ensures store.Valid()
    ensures verb != "POST" ==> out == RedirectToSelect
    ensures verb == "POST" && ParseIds(GetList(post, "question_ids")).None? ==> out == ServerError
    ensures out.Prepared? || (store.papers == old(store.papers) && store.nextId == old(store.nextId))
    ensures verb == "POST" && ParseIds(GetList(post, "question_ids")).Some? ==>
              var resolved := Resolved(old(store.questions), ToSet(ParseIds(GetList(post, "question_ids")).value));
              && (resolved == [] ==> out == RedirectToSelect)
              && (resolved != [] ==>
                    && out.Prepared?
                    && out.paper == PreparedPaper(old(store.nextId), Get(post, "school_name"), user, resolved, now)
                    && out.paper.id !in old(store.papers)
                    && store.papers == old(store.papers)[out.paper.id := out.paper]
                    && out.questions == resolved
                    && out.schoolName == Get(post, "school_name")
                    && out.duration == Get(post, "duration")
                    && out.totalMarks == Get(post, "total_marks")
                    && out.includeOmr == (Get(post, "include_omr") == Some("on"))
                    && out.showAnswers)
  {
    if verb != "POST" {
      return RedirectToSelect;
    }
    var parsed := ParseIds(GetList(post, "question_ids"));
    if parsed.None? {
      return ServerError;
    }
    var schoolName := Get(post, "school_name");
    var questions := Resolved(store.questions, ToSet(parsed.value));
    if questions == [] {
      return RedirectToSelect;
    }
    assert QuestionIds(questions) <= QuestionIds(store.questions);
    var paper := store.CreatePaper(ProgramName(schoolName), user, Some(FirstByKey(questions).classId),
                                   "combined", |questions|, QuestionIds(questions), now);
    out := Prepared(paper, questions, schoolName, Get(post, "duration"), Get(post, "total_marks"),
                    Get(post, "include_omr") == Some("on"), true);
  }

  /** A prepared paper links exactly the selected keys that exist, and counts them. */
  lemma PreparedPaperContents(id: int, schoolName: Option<string>, user: int, qs: seq<Question>,
                              ids: set<int>, now: int)
    requires DistinctIds(qs) && Resolved(qs, ids) != []
    ensures var p := PreparedPaper(id, schoolName, user, Resolved(qs, ids), now);
            && p.questions == ids * QuestionIds(qs)
            && p.numberOfQuestions == |ids * QuestionIds(qs)|
            && p.classLevel.value in (set q | q in qs && q.id in ids :: q.classId)
  {
    ResolvedKeys(qs, ids);
    ResolvedCount(qs, ids);
    var first := FirstByKey(Resolved(qs, ids));
    assert first in qs && first.id in ids;
  }

  // ---------------------------------------------------------------------------
  // paper_delete_view

  /** `QuestionPaper.objects.get(id=paperId, creator=user)`. */
  function OwnedPaper(papers: map<int, QuestionPaper>, paperId: int, user: int): (r: Option<QuestionPaper>)
    ensures r.Some? <==> paperId in papers && papers[paperId].creator == user
    ensures r.Some? ==> r.value == papers[paperId]
  {
    if paperId in papers && papers[paperId].creator == user then Some(papers[paperId]) else None
  }

  /** A response: the 405 of `@require_POST`, or a JSON body with its status. */
  datatype Reply =
    | MethodNotAllowed
    | Json(status: int, success: bool, message: string)

  const PaperDeletedMessage := "পেপার সফলভাবে মুছে ফেলা হয়েছে"
  const PaperNotFoundMessage := "পেপার পাওয়া যায়নি"

  /** The answer of `paper_delete_view`: success exactly when `user` owns the paper. */
  function PaperDeleteReply(papers: map<int, QuestionPaper>, paperId: int, user: int): (r: Reply)
    ensures r.Json?
    ensures r.success <==> paperId in papers && papers[paperId].creator == user
    ensures r.success ==> r == Json(200, true, PaperDeletedMessage)
    ensures !r.success ==> r == Json(404, false, PaperNotFoundMessage)
  {
    if OwnedPaper(papers, paperId, user).Some? then Json(200, true, PaperDeletedMessage)
    else Json(404, false, PaperNotFoundMessage)
  }

  /** `paper_delete_view`: removes the paper when both its key and its creator match; any
      other request leaves every table as it was and reports 404. */
  method PaperDelete(store: Store, paperId: int, user: int) returns (reply: Reply)
    requires store.Valid()
    modifies store`papers
    ensures store.Valid()
    ensures reply == PaperDeleteReply(old(store.papers), paperId, user)
    ensures reply.success ==> store.papers == old(store.papers) - {paperId}
    ensures !reply.success ==> store.papers == old(store.papers)
  {
    reply := PaperDeleteReply(store.papers, paperId, user);
    if OwnedPaper(store.papers, paperId, user).Some? {
      store.RemovePaper(paperId);
    }
  }

  /** Another user's paper is never deleted. */
  lemma PaperDeleteOnlyByOwner(papers: map<int, QuestionPaper>, paperId: int, user: int)
    requires paperId in papers && papers[paperId].creator != user
    ensures PaperDeleteReply(papers, paperId, user) == Json(404, false, PaperNotFoundMessage)
  {
  }

  // ---------------------------------------------------------------------------
  // delete_paper

  const DeletedMessage := "পেপারটি সফলভাবে মুছে ফেলা হয়েছে।"
  const NotFoundMessage := "পেপারটি খুঁজে পাওয়া যায়নি বা আপনার এটি মুছে ফেলার অনুমতি নেই।"
  const ErrorPrefix := "একটি সমস্যা হয়েছে: "
  /** `str()` of the `Http404` that `get_object_or_404` raises. */
  const Http404Text := "No QuestionPaper matches the given query."

  /** `delete_paper` as written: `get_object_or_404` raises `Http404`, not `DoesNotExist`,
      so a missing paper falls through to the catch-all branch and is answered with 500. */
  function DeletePaperReplyAsWritten(verb: string, papers: map<int, QuestionPaper>, paperId: int,
                                     user: int): (r: Reply)
    ensures verb != "POST" <==> r == MethodNotAllowed
    ensures verb == "POST" && OwnedPaper(papers, paperId, user).Some? ==> r == Json(200, true, DeletedMessage)
    ensures verb == "POST" && OwnedPaper(papers, paperId, user).None? ==>
              r == Json(500, false, ErrorPrefix + Http404Text)
  {
    if verb != "POST" then MethodNotAllowed
    else if OwnedPaper(papers, paperId, user).Some? then Json(200, true, DeletedMessage)
    else Json(500, false, ErrorPrefix + Http404Text)
  }

  /** The 404 answer the view's own `except` clause prepares is never given. */
  lemma DeletePaperAsWrittenNever404(verb: string, papers: map<int, QuestionPaper>, paperId: int, user: int)
    ensures DeletePaperReplyAsWritten(verb, papers, paperId, user) != Json(404, false, NotFoundMessage)
  {
  }

  /** A POST for a paper that does not exist is answered with status 500. */
  lemma DeletePaperAsWrittenMissingIs500()
    ensures DeletePaperReplyAsWritten("POST", map[], 1, 1).Json?
    ensures DeletePaperReplyAsWritten("POST", map[], 1, 1).status == 500
  {
  }

  /** `delete_paper` as intended: a missing or foreign paper is answered with 404. */
  function DeletePaperReply(verb: string, papers: map<int, QuestionPaper>, paperId: int, user: int): (r: Reply)
    ensures verb != "POST" <==> r == MethodNotAllowed
    ensures r.Json? ==> (r.success <==> paperId in papers && papers[paperId].creator == user)
    ensures r.Json? && r.success ==> r == Json(200, true, DeletedMessage)
    ensures r.Json? && !r.success ==> r == Json(404, false, NotFoundMessage)
  {
    if verb != "POST" then MethodNotAllowed
    else if OwnedPaper(papers, paperId, user).Some? then Json(200, true, DeletedMessage)
    else Json(404, false, NotFoundMessage)
  }

  /** On a POST the corrected endpoint and `paper_delete_view` delete the same papers and
      answer with the same status. */
  lemma DeleteViewsAgree(papers: map<int, QuestionPaper>, paperId: int, user: int)
    ensures DeletePaperReply("POST", papers, paperId, user).success == PaperDeleteReply(papers, paperId, user).success
    ensures DeletePaperReply("POST", papers, paperId, user).status == PaperDeleteReply(papers, paperId, user).status
  {
  }

  /** `delete_paper` with the not-found answer it evidently intends. */
  method DeletePaper(store: Store, verb: string, paperId: int, user: int) returns (reply: Reply)
    requires store.Valid()
    modifies store`papers
    ensures store.Valid()
    ensures reply == DeletePaperReply(verb, old(store.papers), paperId, user)
    ensures reply.Json? && reply.success ==> store.papers == old(store.papers) - {paperId}
    ensures !(reply.Json? && reply.success) ==> store.papers == old(store.papers)
  {
    reply := DeletePaperReply(verb, store.papers, paperId, user);
    if verb == "POST" && OwnedPaper(store.papers, paperId, user).Some? {
      store.RemovePaper(paperId);
    }
  }
}
