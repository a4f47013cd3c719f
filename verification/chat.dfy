/**
 * The `/chat` handler as one atomic step: given the session table, a user
 * identifier, the message, and the text generator, it returns the new table,
 * the response, and the generator call it made, if any.
 */
module Chat {
  import opened Wrappers
  import Text
  import Questions
  import Context

  type UserId = string

  /** One user's progress: the index of the next question to ask and the
      answers so far (a JavaScript array, so it may in principle have holes). */
  datatype Session = Session(currentQuestion: nat, answers: seq<Option<string>>)

  type Table = map<UserId, Session>

  /** What the text generator gave back: the generated text, or a failure
      (a network or remote error, surfaced by the source as a thrown error). */
  datatype Generated = Generated(text: string) | GenerationFailed

  /** The arguments of one generator call. */
  datatype GenCall = GenCall(context: string, question: string)

  /** The three response shapes of the endpoint. `ServerError` is the HTTP 500
      response; `Complete` carries `isComplete: true`. */
  datatype Response =
    | Msg(message: string)
    | Complete(message: string, questions: seq<string>, answers: seq<Option<string>>)
    | ServerError(message: string)

  datatype Turn = Turn(sessions: Table, response: Response, call: Option<GenCall>)

  const Welcome: string := "Welcome to the onboarding process! Let's get started."
  const Redirect: string := "Type 'Hi' to activate the bot."
  const Closing: string := "Thank you for completing the onboarding!"
  const GenerationError: string := "An error occurred while generating the next question."

  const Fresh: Session := Session(0, [])

  /** `answers[i] = message` on a JavaScript array: overwrite inside the
      array, otherwise grow it, leaving holes between the old end and `i`. */
  function SetAnswer(answers: seq<Option<string>>, i: nat, message: string): (r: seq<Option<string>>)
    ensures |r| == if i < |answers| then |answers| else i + 1
    ensures r[i] == Some(message)
    ensures forall j :: 0 <= j < |answers| && j != i ==> r[j] == answers[j]
    ensures forall j :: |answers| <= j < i ==> r[j] == None
  {
    if i < |answers| then answers[i := Some(message)]
    else answers + seq(i - |answers|, _ => None) + [Some(message)]
  }

  /** No holes: every slot holds a recorded message. */
  predicate Dense(answers: seq<Option<string>>) {
    forall j :: 0 <= j < |answers| ==> answers[j].Some?
  }

  /** The shape every stored session keeps: the index stays within the
      question list and the answers fill exactly the slots already asked. */
  predicate Valid(s: Session) {
    && s.currentQuestion <= Questions.Count
    && (s.currentQuestion == 0 ==> s.answers == [])
    && (s.currentQuestion >= 1 ==> |s.answers| == s.currentQuestion - 1)
    && Dense(s.answers)
  }

  predicate TableValid(t: Table) {
    forall u :: u in t ==> Valid(t[u])
  }

  /** One request to `/chat`. */
  function Step(t: Table, u: UserId, message: string, gen: (string, string) -> Generated): (turn: Turn)
    ensures turn.sessions - {u} == t - {u}
    ensures u in turn.sessions <==> !turn.response.Complete?
    ensures turn.call.Some? <==> (u in t && 0 < t[u].currentQuestion < Questions.Count)
    ensures turn.response.ServerError? <==>
      turn.call.Some? && gen(turn.call.value.context, turn.call.value.question).GenerationFailed?
    ensures u in t && u in turn.sessions ==> t[u].currentQuestion <= turn.sessions[u].currentQuestion
  {
    var s := if u in t then t[u] else Fresh;
    var k := s.currentQuestion;
    if k == 0 then
      if Text.IsHi(message) then
        Turn(t[u := Session(1, s.answers)], Msg(Welcome + " " + Questions.All[0]), None)
      else
        Turn(t[u := s], Msg(Redirect), None)
    else
      var answers := SetAnswer(s.answers, k - 1, message);
      if k >= Questions.Count then
        Turn(t - {u}, Complete(Closing, Questions.All, answers), None)
      else
        var context := Context.FormatContext(Questions.All, answers);
        var next := Questions.All[k];
        var t' := t[u := Session(k + 1, answers)];
        match gen(context, next)
        case Generated(text) => Turn(t', Msg(text), Some(GenCall(context, next)))
        case GenerationFailed => Turn(t', ServerError(GenerationError), Some(GenCall(context, next)))
  }

  // ---------------------------------------------------------------------
  // The transitions, one lemma per branch of the handler.

  /** An unknown user is handled exactly as if an empty session had been stored. */
  lemma UnknownUserIsFresh(t: Table, u: UserId, message: string, gen: (string, string) -> Generated)
    requires u !in t
    ensures Step(t, u, message, gen) == Step(t[u := Fresh], u, message, gen)
  {
  }

  /** At index 0 anything but "hi" gets the fixed prompt; the session (a new
      empty one for an unknown user) is stored and nothing is recorded. */
  lemma InactiveRejects(t: Table, u: UserId, message: string, gen: (string, string) -> Generated)
    requires u !in t || t[u].currentQuestion == 0
    requires !Text.IsHi(message)
    ensures var turn := Step(t, u, message, gen);
      && turn.response == Msg("Type 'Hi' to activate the bot.")
      && turn.sessions == t[u := if u in t then t[u] else Session(0, [])]
      && turn.call == None
  {
  }

  /** At index 0 a "hi" gets the welcome text and the first question, and
      moves the session to index 1 without recording an answer. */
  lemma Activation(t: Table, u: UserId, message: string, gen: (string, string) -> Generated)
    requires u !in t || t[u].currentQuestion == 0
    requires Text.IsHi(message)
    ensures var turn := Step(t, u, message, gen);
      && turn.response == Msg(Welcome + " " + Questions.All[0])
      && turn.sessions == t[u := Session(1, if u in t then t[u].answers else [])]
      && turn.call == None
  {
  }

  /** The welcome reply, spelled out. */
  lemma WelcomeText()
    ensures Welcome + " " + Questions.All[0]
         == "Welcome to the onboarding process! Let's get started. What is your company name?"
  {
  }

  /** At index k in 1..17 the message (even a literal "hi") is written to
      slot k-1, the generator is asked for question k with the history so
      far, and the index moves to k+1 whether or not generation succeeds. */
  lemma AnswerRecorded(t: Table, u: UserId, message: string, gen: (string, string) -> Generated)
    requires u in t && 1 <= t[u].currentQuestion < Questions.Count
    ensures var k := t[u].currentQuestion;
      var answers := SetAnswer(t[u].answers, k - 1, message);
      var context := Context.FormatContext(Questions.All, answers);
      var turn := Step(t, u, message, gen);
      && answers[k - 1] == Some(message)
      && turn.sessions == t[u := Session(k + 1, answers)]
      && turn.call == Some(GenCall(context, Questions.All[k]))
      && (gen(context, Questions.All[k]).Generated? ==>
            turn.response == Msg(gen(context, Questions.All[k]).text))
      && (gen(context, Questions.All[k]).GenerationFailed? ==>
            turn.response == ServerError("An error occurred while generating the next question."))
  {
  }

  /** At index 18 the last message is written to slot 17, the session is
      deleted and the full question list and answers are returned; the
      generator is not called. */
  lemma FinalAnswer(t: Table, u: UserId, message: string, gen: (string, string) -> Generated)
    requires u in t && t[u].currentQuestion >= Questions.Count
    ensures var k := t[u].currentQuestion;
      var turn := Step(t, u, message, gen);
      && turn.sessions == t - {u}
      && u !in turn.sessions
      && turn.response == Complete("Thank you for completing the onboarding!",
                                   Questions.All, SetAnswer(t[u].answers, k - 1, message))
      && turn.call == None
  {
  }

  /** Every step keeps every stored session valid. */
  lemma StepKeepsValid(t: Table, u: UserId, message: string, gen: (string, string) -> Generated)
    requires TableValid(t)
    ensures TableValid(Step(t, u, message, gen).sessions)
  {
    var turn := Step(t, u, message, gen);
    var s := if u in t then t[u] else Fresh;
    var k := s.currentQuestion;
    if u in turn.sessions {
      var s' := turn.sessions[u];
      if k == 0 {
        assert s.answers == [];
      } else {
        ValidWriteAppends(s, message);
        assert s' == Session(k + 1, s.answers + [Some(message)]);
      }
      assert Valid(s');
    }
    forall v | v in turn.sessions
      ensures Valid(turn.sessions[v])
    {
      if v != u {
        assert v in turn.sessions - {u};
      }
    }
  }

  /** In a valid session the answer write is an append, so the answers
      always hold exactly the messages recorded so far, with no holes. */
  lemma ValidWriteAppends(s: Session, message: string)
    requires Valid(s) && s.currentQuestion >= 1
    ensures SetAnswer(s.answers, s.currentQuestion - 1, message) == s.answers + [Some(message)]
  {
  }
}
