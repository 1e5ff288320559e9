/** The questionnaire walker (components/Conversation4.tsx). The component keeps an answer log
    (`conversation`), the list of root questions and a queue of pending follow-up questions.
    Answering truncates the log after the answered entry, records the choice and appends the next
    question; going back pops the log. The log is modelled by value: the source's shallow copies let
    the old and new arrays share entry objects, which changes nothing since the old array is
    discarded. */
module Conversation {
  import opened Wrappers
  import SaveAnswers

  datatype Question = Question(id: string, text: string, answers: seq<Answer>)

  /** An answer button; an absent `followUpQuestions` is the empty list. */
  datatype Answer = Answer(text: string, followUps: seq<Question>)

  /** One entry of the answer log (`QA`): the question, the selected answer, and the dotted path. */
  datatype Entry = Entry(question: Question, selected: Option<string>, path: string)

  /** Log and pending queue together: the part of the state an answer or a back step changes. */
  datatype Walk = Walk(log: seq<Entry>, pending: seq<Question>)

  /** The entry was reached through a follow-up (its path contains a '.'). */
  predicate IsBranch(e: Entry)
  {
    '.' in e.path
  }

  /** `log.filter(q => !q.path.includes('.')).length`. */
  function RootCount(log: seq<Entry>): (n: nat)
    ensures n <= |log|
  {
    if |log| == 0 then 0
    else RootCount(log[..|log| - 1]) + (if IsBranch(log[|log| - 1]) then 0 else 1)
  }

  /** `questions.findIndex(q => q.id === id)`, -1 when absent. */
  function FindIndex(questions: seq<Question>, id: string): (k: int)
    ensures -1 <= k < |questions|
    ensures k == -1 <==> forall i :: 0 <= i < |questions| ==> questions[i].id != id
    ensures k >= 0 ==> questions[k].id == id && forall i :: 0 <= i < k ==> questions[i].id != id
  {
    if |questions| == 0 then -1
    else if questions[0].id == id then 0
    else
      var k := FindIndex(questions[1..], id);
      assert forall i :: 1 <= i < |questions| ==> questions[i] == questions[1..][i - 1];
      if k == -1 then -1 else k + 1
  }

  /** `conversation.slice(0, index + 1)` with the answered entry's selection set. */
  function Truncated(log: seq<Entry>, index: nat, text: string): seq<Entry>
    requires index < |log|
  {
    log[..index + 1][index := log[index].(selected := Some(text))]
  }

  /** The new log and queue after `handleAnswer(answer, index)`. */
  function AnswerStep(questions: seq<Question>, w: Walk, answer: Answer, index: nat): Walk
    requires index < |w.log|
  {
    var updated := Truncated(w.log, index, answer.text);
    var parent := updated[index].path;
    if |answer.followUps| > 0 then
      var first := answer.followUps[0];
      Walk(updated + [Entry(first, None, parent + "." + first.id)], answer.followUps[1..])
    else if |w.pending| > 0 then
      var next := w.pending[0];
      Walk(updated + [Entry(next, None, parent + "." + next.id)], w.pending[1..])
    else
      var nextIndex := FindIndex(questions, w.log[0].question.id) + RootCount(updated);
      if 0 <= nextIndex < |questions| then
        Walk(updated + [Entry(questions[nextIndex], None, questions[nextIndex].id)], w.pending)
      else
        w.(log := updated)
  }

  /** The log after `handleBack()`: the last entry removed and the new last entry's selection cleared. */
  function BackStep(log: seq<Entry>): seq<Entry>
  {
    if |log| <= 1 then []
    else
      var updated := log[..|log| - 1];
      updated[|updated| - 1 := updated[|updated| - 1].(selected := None)]
  }

  /** `selectedAnswer || ''`: the text sent for an entry. */
  function SentAnswer(e: Entry): string
  {
    e.selected.GetOr("")
  }

  /** The `conversation` field of the `handleSave` payload. */
  function PayloadOf(log: seq<Entry>): seq<SaveAnswers.Item>
  {
    seq(|log|, i requires 0 <= i < |log| => SaveAnswers.Item(log[i].question.id, SentAnswer(log[i])))
  }

  /** The notes field and summary button are offered once the log is non-empty and every entry
      has a (non-empty) answer. */
  predicate AllAnswered(log: seq<Entry>)
  {
    |log| > 0 && forall i :: 0 <= i < |log| ==> Truthy(log[i].selected)
  }

  /** The state of the component. */
  class ConversationState {
    var questions: seq<Question>
    var log: seq<Entry>
    var pending: seq<Question>
    var extraInfo: string
    var showSummary: bool

    /** The state before the file has been loaded. */
    constructor ()
      ensures questions == [] && log == [] && pending == [] && extraInfo == "" && !showSummary
    {
      questions, log, pending, extraInfo, showSummary := [], [], [], "", false;
    }

    /** The initialising effect: with questions, the log becomes exactly the first question, with
        its id as path. A file without questions changes nothing. */
    method LoadFile(file: Option<seq<Question>>)
      requires file.Some? ==> |file.value| > 0
      modifies this
      ensures file.None? ==> questions == old(questions) && log == old(log)
      ensures file.Some? ==> questions == file.value && log == [Entry(file.value[0], None, file.value[0].id)]
      ensures pending == old(pending) && extraInfo == old(extraInfo) && showSummary == old(showSummary)
    {
      if file.None? {
        return;
      }
      var qs := file.value;
      questions := qs;
      log := [Entry(qs[0], None, qs[0].id)];
    }

    /** `handleAnswer(answer, index)`; the buttons call it for the last entry. */
    method HandleAnswer(answer: Answer, index: nat)
      requires index < |log|
      modifies this
      ensures Walk(log, pending) == AnswerStep(questions, Walk(old(log), old(pending)), answer, index)
      ensures questions == old(questions) && extraInfo == old(extraInfo) && !showSummary
    {
      var updated := log[..index + 1];
      updated := updated[index := updated[index].(selected := Some(answer.text))];
      if |answer.followUps| > 0 {
        var first := answer.followUps[0];
        updated := updated + [Entry(first, None, updated[index].path + "." + first.id)];
        pending := answer.followUps[1..];
      } else if |pending| > 0 {
        var next := pending[0];
        updated := updated + [Entry(next, None, updated[index].path + "." + next.id)];
        pending := pending[1..];
      } else {
        var rootIndex := FindIndex(questions, log[0].question.id);
        var nextIndex := rootIndex + RootCount(updated);
        if 0 <= nextIndex < |questions| {
          var next := questions[nextIndex];
          updated := updated + [Entry(next, None, next.id)];
        }
      }
      log := updated;
      showSummary := false;
    }

    /** `handleBack()`. */
    method HandleBack()
      modifies this
      ensures log == BackStep(old(log))
      ensures questions == old(questions) && pending == old(pending) && extraInfo == old(extraInfo) && !showSummary
    {
      var updated := log;
      if |updated| > 0 {
        updated := updated[..|updated| - 1];
      }
      if |updated| > 0 {
        updated := updated[|updated| - 1 := updated[|updated| - 1].(selected := None)];
      }
      log := updated;
      showSummary := false;
    }

    /** The Yes/No buttons of the summary's edit mode: only that entry's selection changes. */
    method EditAnswer(index: nat, yes: bool)
      requires index < |log|
      modifies this`log
      ensures log == old(log)[index := old(log)[index].(selected := Some(if yes then "Yes" else "No"))]
    {
      log := log[index := log[index].(selected := Some(if yes then "Yes" else "No"))];
    }

    /** The notes text area. */
    method SetExtraInfo(text: string)
      modifies this`extraInfo
      ensures extraInfo == text
    {
      extraInfo := text;
    }

    /** The "Show summary" button. */
    method ShowSummary()
      modifies this`showSummary
      ensures showSummary
    {
      showSummary := true;
    }

    /** The body `handleSave` posts to the save-answers route. */
    function Payload(email: string, dimension: string): (r: SaveAnswers.Request)
      reads this
      ensures r.conversation.Some? && |r.conversation.value| == |log|
      ensures r.email == email && r.dimension == dimension && r.extraInfo == Some(extraInfo)
    {
      SaveAnswers.Request(email, dimension, Some(PayloadOf(log)), Some(extraInfo))
    }
  }

  // ---------------------------------------------------------------------------
  // Properties of a step

  /** Answering at `index` keeps the entries before it, sets only that entry's selection, drops every
      later entry, and appends at most one entry. */
  lemma AnswerTruncates(questions: seq<Question>, w: Walk, answer: Answer, index: nat)
    requires index < |w.log|
    ensures var r := AnswerStep(questions, w, answer, index);
      && index + 1 <= |r.log| <= index + 2
      && r.log[..index] == w.log[..index]
      && r.log[index] == w.log[index].(selected := Some(answer.text))
  {
  }

  /** An answer with follow-ups appends exactly its first follow-up, under the answered entry's
      path, and the queue becomes the remaining follow-ups, whatever was queued before. */
  lemma FollowUpsAppendFirst(questions: seq<Question>, w: Walk, answer: Answer, index: nat)
    requires index < |w.log| && |answer.followUps| > 0
    ensures var r := AnswerStep(questions, w, answer, index);
      && |r.log| == index + 2
      && r.log[index + 1] == Entry(answer.followUps[0], None, w.log[index].path + "." + answer.followUps[0].id)
      && r.pending == answer.followUps[1..]
  {
  }

  /** Without follow-ups, a non-empty queue supplies the next entry and shrinks by one. */
  lemma QueueHeadAppended(questions: seq<Question>, w: Walk, answer: Answer, index: nat)
    requires index < |w.log| && |answer.followUps| == 0 && |w.pending| > 0
    ensures var r := AnswerStep(questions, w, answer, index);
      && |r.log| == index + 2
      && r.log[index + 1] == Entry(w.pending[0], None, w.log[index].path + "." + w.pending[0].id)
      && r.pending == w.pending[1..]
  {
  }

  /** Without follow-ups and with an empty queue, the next root question is the one at the first
      question's position plus the number of root entries kept; past the end nothing is appended. */
  lemma RootQuestionAppended(questions: seq<Question>, w: Walk, answer: Answer, index: nat)
    requires index < |w.log| && |answer.followUps| == 0 && |w.pending| == 0
    ensures var updated := Truncated(w.log, index, answer.text);
      var k := FindIndex(questions, w.log[0].question.id) + RootCount(updated);
      AnswerStep(questions, w, answer, index)
        == if 0 <= k < |questions| then Walk(updated + [Entry(questions[k], None, questions[k].id)], [])
           else Walk(updated, [])
  {
  }

  /** Every entry appended from a follow-up or from the queue is a branch entry (its path has a '.'). */
  lemma AppendedBranchHasDot(questions: seq<Question>, w: Walk, answer: Answer, index: nat)
    requires index < |w.log| && (|answer.followUps| > 0 || |w.pending| > 0)
    ensures var r := AnswerStep(questions, w, answer, index);
      |r.log| == index + 2 && IsBranch(r.log[index + 1])
  {
    var r := AnswerStep(questions, w, answer, index);
    var parent := w.log[index].path;
    var id := if |answer.followUps| > 0 then answer.followUps[0].id else w.pending[0].id;
    assert r.log[index + 1].path == parent + "." + id;
    assert (parent + "." + id)[|parent|] == '.';
  }

  /** Back removes exactly the last entry and clears the selection of the new last entry. */
  lemma BackPops(log: seq<Entry>)
    requires |log| >= 2
    ensures var r := BackStep(log);
      && |r| == |log| - 1
      && r[..|r| - 1] == log[..|log| - 2]
      && r[|r| - 1] == log[|log| - 2].(selected := None)
  {
  }

  /** After going back, the last entry is unanswered and can be answered again; answering it
      keeps the entries before it. */
  lemma BackThenReanswer(questions: seq<Question>, log: seq<Entry>, pending: seq<Question>, answer: Answer)
    requires |log| >= 2
    ensures var back := BackStep(log);
      && back[|back| - 1].selected.None?
      && var r := AnswerStep(questions, Walk(back, pending), answer, |back| - 1);
         r.log[..|back| - 1] == log[..|log| - 2] && r.log[|back| - 1].selected == Some(answer.text)
  {
  }

  /** Two follow-ups: answering the root question leads to the first follow-up with the second queued,
      and answering the first (with a plain answer) leads to the second. */
  lemma TwoFollowUpsInOrder(questions: seq<Question>, root: Question, a: Answer, f1: Question, f2: Question, plain: Answer)
    requires a.followUps == [f1, f2] && plain.followUps == []
    ensures var w1 := AnswerStep(questions, Walk([Entry(root, None, root.id)], []), a, 0);
      && w1.log == [Entry(root, Some(a.text), root.id), Entry(f1, None, root.id + "." + f1.id)]
      && w1.pending == [f2]
      && var w2 := AnswerStep(questions, w1, plain, 1);
         && w2.log == [Entry(root, Some(a.text), root.id), Entry(f1, Some(plain.text), root.id + "." + f1.id),
                       Entry(f2, None, root.id + "." + f1.id + "." + f2.id)]
         && w2.pending == []
  {
  }

  /** The payload has one item per entry, in order, with the question id and the answer or "". */
  lemma PayloadItems(log: seq<Entry>)
    ensures |PayloadOf(log)| == |log|
    ensures forall i :: 0 <= i < |log| ==>
      PayloadOf(log)[i].questionId == log[i].question.id
      && (PayloadOf(log)[i].selectedAnswer == "" <==> !Truthy(log[i].selected))
  {
  }

  /** Saved answers: position `i` of the log gets a key exactly when its entry has a non-empty
      answer, and the value is true iff that answer is "yes" up to case. */
  lemma SavedAnswersFollowLog(log: seq<Entry>, dimension: string, i: nat)
    requires i < |log|
    ensures SaveAnswers.Key(dimension, i) in SaveAnswers.AnswersOf(dimension, PayloadOf(log)) <==> Truthy(log[i].selected)
    ensures Truthy(log[i].selected) ==>
      SaveAnswers.AnswersOf(dimension, PayloadOf(log))[SaveAnswers.Key(dimension, i)] == SaveAnswers.IsYes(log[i].selected.value)
  {
    SaveAnswers.AnswersOfSpec(dimension, PayloadOf(log));
  }

  /** After an answer every entry is answered exactly when the answer text is non-empty, the
      entries before it were all answered, and no further question was appended. */
  lemma {:induction false} AnswerAllAnswered(questions: seq<Question>, w: Walk, answer: Answer, index: nat)
    requires index < |w.log|
    ensures var r := AnswerStep(questions, w, answer, index);
      AllAnswered(r.log) <==>
        && answer.text != ""
        && (forall i :: 0 <= i < index ==> Truthy(w.log[i].selected))
        && |r.log| == index + 1
  {
    var r := AnswerStep(questions, w, answer, index);
    AnswerTruncates(questions, w, answer, index);
    if |r.log| == index + 2 {
      assert r.log[index + 1].selected == None by {
        var t := Truncated(w.log, index, answer.text);
        assert |t| == index + 1;
      }
    }
    if AllAnswered(r.log) {
      forall i | 0 <= i < index ensures Truthy(w.log[i].selected) {
        assert r.log[..index][i] == w.log[..index][i];
      }
      assert Truthy(r.log[index].selected);
    }
    if answer.text != "" && (forall i :: 0 <= i < index ==> Truthy(w.log[i].selected)) && |r.log| == index + 1 {
      forall i | 0 <= i < |r.log| ensures Truthy(r.log[i].selected) {
        if i < index {
          assert r.log[..index][i] == w.log[..index][i];
        }
      }
    }
  }

  /** Going back always withdraws the notes field and summary button: the new last entry is
      unanswered, or the log is empty. */
  lemma BackNotAllAnswered(log: seq<Entry>)
    ensures !AllAnswered(BackStep(log))
  {
    var b := BackStep(log);
    if |b| > 0 {
      assert b[|b| - 1].selected == None;
    }
  }
}
