/**
 * Sequences of `/chat` requests from one user, and the end-to-end promise of
 * the onboarding flow: "Hi" followed by eighteen answers ends in completion
 * with exactly those answers, and leaves no session behind.
 */
module Journey {
  import opened Wrappers
  import Text
  import Questions
  import Chat

  datatype Trace = Trace(sessions: Chat.Table, responses: seq<Chat.Response>)

  /** Feeds `messages` from user `u` through the handler one at a time. */
  function Run(t: Chat.Table, u: Chat.UserId, messages: seq<string>, gen: (string, string) -> Chat.Generated): (tr: Trace)
    ensures |tr.responses| == |messages|
    ensures tr.sessions - {u} == t - {u}
    decreases |messages|
  {
    if |messages| == 0 then Trace(t, [])
    else
      var turn := Chat.Step(t, u, messages[0], gen);
      var rest := Run(turn.sessions, u, messages[1..], gen);
      Trace(rest.sessions, [turn.response] + rest.responses)
  }

  /** A generator that never fails. */
  ghost predicate AlwaysGenerates(gen: (string, string) -> Chat.Generated) {
    forall c, q :: gen(c, q).Generated?
  }

  /** The answers a user typed, as the handler stores them. */
  function Recorded(messages: seq<string>): (r: seq<Option<string>>)
    ensures |r| == |messages|
    ensures forall j :: 0 <= j < |messages| ==> r[j] == Some(messages[j])
  {
    seq(|messages|, j requires 0 <= j < |messages| => Some(messages[j]))
  }

  /** Runs never break a valid table. */
  lemma {:induction false} RunKeepsValid(t: Chat.Table, u: Chat.UserId, messages: seq<string>, gen: (string, string) -> Chat.Generated)
    requires Chat.TableValid(t)
    ensures Chat.TableValid(Run(t, u, messages, gen).sessions)
    decreases |messages|
  {
    if |messages| > 0 {
      Chat.StepKeepsValid(t, u, messages[0], gen);
      RunKeepsValid(Chat.Step(t, u, messages[0], gen).sessions, u, messages[1..], gen);
    }
  }

  lemma RecordedSnoc(answers: seq<string>, k: nat)
    requires 1 <= k <= |answers|
    ensures Recorded(answers[..k - 1]) + [Some(answers[k - 1])] == Recorded(answers[..k])
  {
  }

  /** One more answer in the middle of the questionnaire: it is appended,
      the index moves on, and the reply is the generated text. */
  lemma MiddleAnswer(t: Chat.Table, u: Chat.UserId, answers: seq<string>, k: nat,
                     gen: (string, string) -> Chat.Generated)
    requires |answers| == Questions.Count
    requires 1 <= k < Questions.Count
    requires u in t && t[u] == Chat.Session(k, Recorded(answers[..k - 1]))
    requires AlwaysGenerates(gen)
    ensures var turn := Chat.Step(t, u, answers[k - 1], gen);
      && turn.sessions == t[u := Chat.Session(k + 1, Recorded(answers[..k]))]
      && turn.response.Msg?
  {
    Chat.ValidWriteAppends(t[u], answers[k - 1]);
    RecordedSnoc(answers, k);
    Chat.AnswerRecorded(t, u, answers[k - 1], gen);
  }

  /** The eighteenth answer completes the questionnaire. */
  lemma LastAnswer(t: Chat.Table, u: Chat.UserId, answers: seq<string>, gen: (string, string) -> Chat.Generated)
    requires |answers| == Questions.Count
    requires u in t && t[u] == Chat.Session(Questions.Count, Recorded(answers[..Questions.Count - 1]))
    ensures Run(t, u, answers[Questions.Count - 1..], gen)
         == Trace(t - {u}, [Chat.Complete(Chat.Closing, Questions.All, Recorded(answers))])
  {
    var k := Questions.Count;
    Chat.ValidWriteAppends(t[u], answers[k - 1]);
    RecordedSnoc(answers, k);
    assert answers[..k] == answers;
    Chat.FinalAnswer(t, u, answers[k - 1], gen);
    var messages := answers[k - 1..];
    assert messages == [answers[k - 1]];
    assert messages[1..] == [];
  }

  /** From a session at index k holding answers 1..k-1, the remaining
      answers k..18 lead to completion with all eighteen answers; every
      earlier reply is a plain message and the session is gone at the end. */
  lemma {:induction false} AnswersToCompletion(t: Chat.Table, u: Chat.UserId, answers: seq<string>, k: nat,
                                               gen: (string, string) -> Chat.Generated)
    requires |answers| == Questions.Count
    requires 1 <= k <= Questions.Count
    requires u in t && t[u] == Chat.Session(k, Recorded(answers[..k - 1]))
    requires AlwaysGenerates(gen)
    ensures var tr := Run(t, u, answers[k - 1..], gen);
      && tr.sessions == t - {u}
      && |tr.responses| == Questions.Count - k + 1
      && tr.responses[|tr.responses| - 1] == Chat.Complete(Chat.Closing, Questions.All, Recorded(answers))
      && (forall j :: 0 <= j < |tr.responses| - 1 ==> tr.responses[j].Msg?)
    decreases Questions.Count - k
  {
    if k == Questions.Count {
      LastAnswer(t, u, answers, gen);
    } else {
      var messages := answers[k - 1..];
      MiddleAnswer(t, u, answers, k, gen);
      var turn := Chat.Step(t, u, messages[0], gen);
      var t' := turn.sessions;
      assert messages[1..] == answers[k..];
      AnswersToCompletion(t', u, answers, k + 1, gen);
      var rest := Run(t', u, answers[k..], gen);
      assert Run(t, u, messages, gen) == Trace(rest.sessions, [turn.response] + rest.responses);
      assert t' - {u} == t - {u};
    }
  }

  /** A user without a session who says "Hi" is welcomed and moved to index 1. */
  lemma GreetNewUser(t: Chat.Table, u: Chat.UserId, gen: (string, string) -> Chat.Generated)
    requires u !in t
    ensures Chat.Step(t, u, "Hi", gen)
         == Chat.Turn(t[u := Chat.Session(1, [])], Chat.Msg(Chat.Welcome + " " + Questions.All[0]), None)
  {
    Text.HiAccepted("", 'H', 'i', "");
    assert "" + ['H', 'i'] + "" == "Hi";
    Chat.Activation(t, u, "Hi", gen);
  }

  /** From no session, "Hi" and eighteen answers (every generation
      succeeding) end in completion with exactly those answers, in order; the
      table is left as it was before the user arrived, so a further message
      from the same user starts over. */
  lemma Onboarding(t: Chat.Table, u: Chat.UserId, answers: seq<string>, gen: (string, string) -> Chat.Generated)
    requires u !in t
    requires |answers| == 18
    requires AlwaysGenerates(gen)
    ensures var tr := Run(t, u, ["Hi"] + answers, gen);
      && tr.sessions == t
      && u !in tr.sessions
      && |tr.responses| == 19
      && tr.responses[0] == Chat.Msg(Chat.Welcome + " " + Questions.All[0])
      && (forall j :: 1 <= j < 18 ==> tr.responses[j].Msg?)
      && tr.responses[18] == Chat.Complete("Thank you for completing the onboarding!", Questions.All, Recorded(answers))
  {
    var messages := ["Hi"] + answers;
    GreetNewUser(t, u, gen);
    var first := Chat.Step(t, u, "Hi", gen);
    var t1 := first.sessions;
    assert Recorded(answers[..0]) == [];
    AnswersToCompletion(t1, u, answers, 1, gen);
    assert answers[0..] == answers;
    assert messages[0] == "Hi" && messages[1..] == answers;
    var rest := Run(t1, u, answers, gen);
    assert Run(t, u, messages, gen) == Trace(rest.sessions, [first.response] + rest.responses);
    assert t1 - {u} == t;
  }

  /** After completion the next message from the same user meets an empty
      session: a "hi" greets again, anything else gets the activation prompt. */
  lemma StartsOverAfterCompletion(t: Chat.Table, u: Chat.UserId, answers: seq<string>, message: string,
                                  gen: (string, string) -> Chat.Generated)
    requires u !in t
    requires |answers| == 18
    requires AlwaysGenerates(gen)
    ensures var after := Run(t, u, ["Hi"] + answers, gen).sessions;
      Chat.Step(after, u, message, gen) == Chat.Step(after[u := Chat.Fresh], u, message, gen)
  {
    Onboarding(t, u, answers, gen);
    var after := Run(t, u, ["Hi"] + answers, gen).sessions;
    Chat.UnknownUserIsFresh(after, u, message, gen);
  }
}
