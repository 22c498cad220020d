/** The FAQ accordion of the landing page.

    Every `.faq-question` element carries an `active` marker, and so does the
    answer that follows it (its next sibling).  Question `j` and its answer
    are paired by index: `questions[j]` and `answers[j]`.  A click on
    question `i` first collapses every other active question together with
    its answer, then toggles question `i` and its answer. */
module FaqAccordion {

  /** The markers of all question/answer pairs, as values. */
  datatype Faq = Faq(questions: seq<bool>, answers: seq<bool>)
  {
    predicate WellFormed() { |questions| == |answers| }
  }

  /** At most one question carries the `active` marker. */
  predicate AtMostOneOpen(q: seq<bool>)
  {
    forall j, k :: 0 <= j < |q| && 0 <= k < |q| && q[j] && q[k] ==> j == k
  }

  /** Every question's marker agrees with its answer's marker. */
  predicate Paired(f: Faq)
    requires f.WellFormed()
  {
    forall j :: 0 <= j < |f.questions| ==> f.questions[j] == f.answers[j]
  }

  /** The indices of the active questions in document order: what the
      selector `.faq-question.active` returns when the handler starts. */
  function ActiveQuestions(q: seq<bool>): (r: seq<nat>)
    ensures forall t :: 0 <= t < |r| ==> r[t] < |q| && q[r[t]]
    ensures forall j :: 0 <= j < |q| && q[j] ==> j in r
    ensures forall s, t :: 0 <= s < t < |r| ==> r[s] < r[t]
    decreases |q|
  {
    if |q| == 0 then []
    else ActiveQuestions(q[..|q| - 1]) + (if q[|q| - 1] then [|q| - 1] else [])
  }

  /** The markers after a click on question `i`: every other question that
      was active is collapsed with its answer, then pair `i` is toggled. */
  function AfterClick(f: Faq, i: nat): (r: Faq)
    requires f.WellFormed() && i < |f.questions|
    ensures r.WellFormed() && |r.questions| == |f.questions|
    ensures r.questions[i] == !f.questions[i] && r.answers[i] == !f.answers[i]
    ensures forall j :: 0 <= j < |f.questions| && j != i ==> !r.questions[j]
    ensures forall j :: 0 <= j < |f.questions| && j != i && f.questions[j] ==> !r.answers[j]
    ensures forall j :: 0 <= j < |f.questions| && j != i && !f.questions[j] ==>
              r.questions[j] == f.questions[j] && r.answers[j] == f.answers[j]
    ensures AtMostOneOpen(r.questions)
    ensures Paired(f) ==> Paired(r)
  {
    var n := |f.questions|;
    Faq(seq(n, j requires 0 <= j < n =>
              if j == i then !f.questions[j]
              else if f.questions[j] then false
              else f.questions[j]),
        seq(n, j requires 0 <= j < n =>
              if j == i then !f.answers[j]
              else if f.questions[j] then false
              else f.answers[j]))
  }

  /** Every index in `clicks` names a question. */
  predicate ValidClicks(f: Faq, clicks: seq<nat>)
  {
    forall t :: 0 <= t < |clicks| ==> clicks[t] < |f.questions|
  }

  /** The markers after the clicks in `clicks`, one after the other.  This
      only replays clicks; what they do is stated by `AfterClick`,
      `ClicksLeaveAtMostOneOpen` and `ClicksKeepPaired`. */
  function AfterClicks(f: Faq, clicks: seq<nat>): (r: Faq)
    requires f.WellFormed() && ValidClicks(f, clicks)
    ensures r.WellFormed() && |r.questions| == |f.questions|
    decreases |clicks|
  {
    if clicks == [] then f
    else AfterClicks(AfterClick(f, clicks[0]), clicks[1..])
  }

  /** After at least one click, at most one question is open, whatever the
      markers were before the first click. */
  lemma {:induction false} ClicksLeaveAtMostOneOpen(f: Faq, clicks: seq<nat>)
    requires f.WellFormed() && ValidClicks(f, clicks)
    requires clicks != [] || AtMostOneOpen(f.questions)
    ensures AtMostOneOpen(AfterClicks(f, clicks).questions)
    decreases |clicks|
  {
    if clicks != [] {
      var g := AfterClick(f, clicks[0]);
      assert ValidClicks(g, clicks[1..]);
      ClicksLeaveAtMostOneOpen(g, clicks[1..]);
    }
  }

  /** If every question agrees with its answer, it still does after any
      sequence of clicks. */
  lemma {:induction false} ClicksKeepPaired(f: Faq, clicks: seq<nat>)
    requires f.WellFormed() && ValidClicks(f, clicks) && Paired(f)
    ensures Paired(AfterClicks(f, clicks))
    decreases |clicks|
  {
    if clicks != [] {
      var g := AfterClick(f, clicks[0]);
      assert ValidClicks(g, clicks[1..]);
      ClicksKeepPaired(g, clicks[1..]);
    }
  }

  /** With no question open, the selector of active questions lists nothing. */
  lemma {:induction false} NoneOpenNoneListed(q: seq<bool>)
    requires forall j :: 0 <= j < |q| ==> !q[j]
    ensures ActiveQuestions(q) == []
    decreases |q|
  {
    if |q| > 0 {
      NoneOpenNoneListed(q[..|q| - 1]);
    }
  }

  /** When at most one question is open, the selector of active questions
      lists at most one element, so the next click collapses at most one
      other pair. */
  lemma {:induction false} AtMostOneListed(q: seq<bool>)
    requires AtMostOneOpen(q)
    ensures |ActiveQuestions(q)| <= 1
    decreases |q|
  {
    if |q| > 0 {
      var p := q[..|q| - 1];
      assert AtMostOneOpen(p);
      AtMostOneListed(p);
      if q[|q| - 1] {
        NoneOpenNoneListed(p);
      }
    }
  }

  /** Two clicks on the same question with no other question open restore
      the markers. */
  lemma DoubleClickRestores(f: Faq, i: nat)
    requires f.WellFormed() && i < |f.questions|
    requires forall j :: 0 <= j < |f.questions| && j != i ==> !f.questions[j]
    ensures AfterClick(AfterClick(f, i), i) == f
  {
  }

  /** The accordion on the page: one marker array for the questions and one
      for the answers. */
  class Accordion {
    var questions: array<bool>
    var answers: array<bool>

    ghost predicate Valid()
      reads this
    {
      questions.Length == answers.Length && questions != answers
    }

    /** The markers as a value. */
    function State(): (f: Faq)
      reads this, questions, answers
      requires Valid()
      ensures f.WellFormed() && |f.questions| == questions.Length
    {
      Faq(questions[..], answers[..])
    }

    /** A page with `n` question/answer pairs, all collapsed. */
    constructor (n: nat)
      ensures Valid() && fresh(questions) && fresh(answers)
      ensures State() == Faq(seq(n, _ => false), seq(n, _ => false))
      ensures AtMostOneOpen(State().questions) && Paired(State())
    {
      questions := new bool[n](_ => false);
      answers := new bool[n](_ => false);
    }

    /** The first half of the click handler of question `i`: walks the
        active questions listed when the handler starts and collapses each
        one other than `i` together with its answer. */
    method CollapseOthers(i: nat)
      requires Valid() && i < questions.Length
      modifies questions, answers
      ensures forall j :: 0 <= j < questions.Length ==>
                questions[j] == (if j != i && old(questions[j]) then false else old(questions[j]))
      ensures forall j :: 0 <= j < answers.Length ==>
                answers[j] == (if j != i && old(questions[j]) then false else old(answers[j]))
    {
      var active := ActiveQuestions(questions[..]);
      ghost var collapsed: set<nat> := {};
      for t := 0 to |active|
        invariant forall j :: j in collapsed ==> j < questions.Length && j != i && old(questions[j])
        invariant forall s :: 0 <= s < t && active[s] != i ==> active[s] in collapsed
        invariant forall j :: 0 <= j < questions.Length ==>
                    questions[j] == (if j in collapsed then false else old(questions[j]))
        invariant forall j :: 0 <= j < answers.Length ==>
                    answers[j] == (if j in collapsed then false else old(answers[j]))
      {
        var j := active[t];
        if j != i {
          questions[j] := false;
          answers[j] := false;
          collapsed := collapsed + {j};
        }
      }
    }

    /** The click handler of question `i`: collapses every other active
        pair, then toggles question `i` and its answer. */
    method Click(i: nat)
      requires Valid() && i < questions.Length
      modifies questions, answers
      ensures Valid()
      ensures State() == AfterClick(old(State()), i)
    {
      CollapseOthers(i);
      questions[i] := !questions[i];
      answers[i] := !answers[i];
      ghost var expected := AfterClick(old(State()), i);
      assert questions[..] == expected.questions;
      assert answers[..] == expected.answers;
    }
  }
}
