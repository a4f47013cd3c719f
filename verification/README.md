# Onboarding chat bot: a Dafny model of the `/chat` state machine

The system is a small Express server that walks each user through eighteen
fixed intake questions. A per-user session `{currentQuestion, answers}` lives
in an in-memory table keyed by user id. A user must first say "Hi". After
that, each message is stored as the answer to the question just asked, and a
remote text generator phrases the next question. The history passed to that
generator is built by `formatContext`. After the eighteenth answer the
session is deleted and the handler returns all questions and answers. A
second helper assembles the user message of the email-drafting request.

The model is purely functional:

- `wrappers.dfy`: `Option`. `None` stands for a JavaScript `undefined`: a
  hole in an array, or an omitted argument.
- `text.dfy` (module `Text`): `message.toLowerCase().trim()` and the "hi"
  gate. It proves exactly which messages pass the gate.
- `questions.dfy` (module `Questions`): the eighteen questions.
  server.js:16-35 and utils.js:7-26 are character-for-character identical,
  so the list is defined once.
- `context.dfy` (module `Context`): `formatContext`, written twice.
  - As a recursive function and as a loop method mirroring the source.
  - Against an independent description: the header followed by one block per
    truthy answer, in increasing index order.
  - server.js:81-89 is an identical copy of utils.js:68-76.
- `email.dfy` (module `Email`): the `<context>` / `<prev_email>` user
  content of `generateEmail`, with a round trip that reads the draft back.
- `chat.dfy` (module `Chat`): one `/chat` request as a step function
  `Step(table, userId, message, gen)`.
  - It returns the new table, the response (`Msg`, `Complete` or the HTTP 500
    `ServerError`) and the generator call it made, if any.
  - The generator is a function parameter returning `Generated(text)` or
    `GenerationFailed`.
  - Each branch of the handler has its own transition lemma. There is also a
    session invariant that every step preserves.
- `journey.dfy` (module `Journey`): runs of several messages from one user.
  The end-to-end lemma: "Hi" and eighteen answers end in completion with
  exactly those answers, and no session is left behind.

Answers are `seq<Option<string>>`. A JavaScript array can have holes (`None`)
as well as empty strings, and `formatContext` skips both as falsy.
`SetAnswer` models `answers[k - 1] = message` on an arbitrary array: it
overwrites a slot inside the array, or grows the array and leaves holes. So
`Step` needs no precondition on the table. `Chat.ValidWriteAppends` shows
that in every reachable session this write is an append.

Two facts about the code that the model makes explicit:

- A failed generation still uses up the turn. The index is advanced at
  server.js:139, before the `await` at server.js:142, and the answer stays
  recorded. The response is the fixed HTTP 500 message
  (`Chat.AnswerRecorded`).
- Every stored session has `|answers| == currentQuestion - 1` from index 1
  on, with no holes, and no answers at index 0 (`Chat.StepKeepsValid`).

## Model

| member | source | states |
|---|---|---|
| Text.Lower | server.js:103 | `toLowerCase` keeps the length and maps each character by itself: ASCII capitals to lower case, everything else unchanged |
| Text.Trim | server.js:103 | the trimmed text is the part of the input after its leading white space and before its trailing white space; when it is non-empty it neither starts nor ends with white space |
| Text.TrimPadded | server.js:103 | trimming is exact: text that does not start or end with white space is recovered from between any two runs of white space |
| Text.HiAccepted | server.js:103-109 | every "hi" in any capitalisation, with any surrounding white space, passes the activation gate |
| Text.HiShape | server.js:103-112 | conversely, a message passes the gate only if it is h/H then i/I, surrounded by white space alone |
| Text.HiExamples | server.js:103-112 | "Hi", "hi" and "  HI\n" pass the gate; "hello", "h i" and "" do not |
| Questions.CountMatches | utils.js:7-26 | the question list has exactly 18 entries |
| Context.FormatContext | utils.js:68-76 | every history begins with the header "Conversation History:\n" |
| Context.BuildContext | utils.js:68-76 | the source's loop, with its accumulator and index, builds exactly the history the recursive definition describes |
| Context.TruthyIndices | utils.js:70-71 | lists exactly the indices of truthy answers (neither a hole nor ""), each below the answer count, strictly increasing |
| Context.FormatContextIsBlocks | utils.js:68-76 | the history is the header followed by one block "Q: question\nA: answer\n" per truthy answer, in increasing index order, and nothing else |
| Context.NoAnswers | utils.js:69-75 | with no answers the history is exactly "Conversation History:\n" |
| Context.AppendTruthy | utils.js:70-74 | recording a truthy answer in the next slot appends exactly its block to the previous history |
| Context.AppendFalsy | utils.js:70-74 | recording a hole or "" in the next slot leaves the history unchanged |
| Context.FalsyIgnored | utils.js:71 | two answer arrays that agree on their truthy slots give the same history, so holes and empty strings contribute nothing |
| Context.LaterQuestionsIgnored | utils.js:70-72 | only questions at answered indices are read; questions past the end of the answers never reach the history |
| Context.PrefixExtends | utils.js:70-74 | the history of a prefix of the answers is a prefix of the full history |
| Email.UserContent | utils.js:220-222 | the content starts with the context tag; the `<prev_email>` block is present (the content ends with `</prev_email>`) exactly when the previous draft is non-empty; its length accounts for both tags |
| Email.PreviousEmailRoundTrip | utils.js:220-222 | the previous draft can be read back from the content, and reads as "" when it was omitted or empty |
| Email.DefaultIsEmpty | utils.js:78 | omitting the draft is the same as passing "", and gives exactly `<context>C</context>` |
| Email.WithPreviousDraft | utils.js:220-221 | a non-empty draft gives `<context>C</context>\n<prev_email>P</prev_email>` |
| Chat.SetAnswer | server.js:117 | the answer write puts the message at the slot, keeps every other existing slot, and fills any gap with holes |
| Chat.Step | server.js:92-149 | a request changes only the requesting user's entry; the entry disappears exactly on completion; the generator is called exactly at indices 1..17; a server error means that call failed; the index never decreases |
| Chat.UnknownUserIsFresh | server.js:96-100 | an unknown user is handled exactly as if an empty session at index 0 were stored |
| Chat.InactiveRejects | server.js:96-112 | at index 0 a message other than "hi" gets exactly "Type 'Hi' to activate the bot."; the session (a new empty one for an unknown user) is stored unchanged; no generator call |
| Chat.Activation | server.js:103-109 | at index 0 a "hi" gets the welcome text, a space and the first question; the index becomes 1; no answer is recorded |
| Chat.WelcomeText | server.js:104-108 | the welcome reply is exactly "Welcome to the onboarding process! Let's get started. What is your company name?" |
| Chat.AnswerRecorded | server.js:116-148 | at index k in 1..17 the message, even a literal "hi", goes to slot k-1; the generator is called with the history of the updated answers and question k; the index becomes k+1 whether generation succeeds or fails; the reply is the generated text or the fixed error message |
| Chat.FinalAnswer | server.js:116-133 | at index 18 the message goes to slot 17; the session is removed; the reply carries the full question list and the answers; no generator call |
| Chat.StepKeepsValid | server.js:96-139 | every stored session keeps 0 <= index <= 18, no answers at index 0, exactly index-1 answers from index 1 on, and no holes |
| Chat.ValidWriteAppends | server.js:116-118 | in a valid session, recording an answer appends it |
| Journey.Run | server.js:92-149 | a run of messages from one user gives one response per message and never touches another user's entry |
| Journey.RunKeepsValid | server.js:96-139 | the session invariant holds after any sequence of messages |
| Journey.GreetNewUser | server.js:96-109 | "Hi" from a user without a session stores the session at index 1 with no answers and replies with the welcome and the first question |
| Journey.MiddleAnswer | server.js:116-143 | with a generator that succeeds, the k-th answer (k < 18) is appended, the index moves to k+1 and the reply is a plain message |
| Journey.LastAnswer | server.js:116-133 | the eighteenth answer ends the run with the session deleted and the completion payload holding all eighteen answers |
| Journey.AnswersToCompletion | server.js:116-143 | from index k with answers 1..k-1 recorded, answers k..18 give plain replies and then completion with all answers in order; the session is gone at the end |
| Journey.Onboarding | server.js:96-143 | from no session, "Hi" and 18 answers, with every generation succeeding, end in a completion with exactly those answers in order; the table is as before the user arrived |
| Journey.StartsOverAfterCompletion | server.js:96-125 | after completion the next message from the same user is handled as from a fresh session |

## Left out

- Express wiring, `dotenv`, CORS, the port constant and `app.listen`
  (server.js:1-14, 152-154). These are HTTP and process I/O.
- `generateResponse` and the network part of `generateEmail`
  (server.js:40-78, utils.js:28-66, 208-238). They are calls to a remote
  completion service. The chat generator is an abstract function parameter
  whose arguments are recorded in `Chat.GenCall`. The prompt template, the
  model name, temperature, max_tokens and the `.trim()` of the reply carry
  nothing to verify.
- The long system prompt of `generateEmail` (utils.js:79-206). It is an
  opaque constant.
- Concurrency: two requests for one user can interleave across the `await`
  at server.js:142. Each request is modelled as one atomic step.
- Text.Lower: only ASCII letters are lower-cased. Unicode case mapping is not
  modelled.
- Text.Trim: only space, tab, line feed, vertical tab, form feed and carriage
  return are stripped. Unicode white space (for example U+00A0 and U+FEFF) is
  not modelled.
- A missing or non-string `message`: the call to `toLowerCase` at
  server.js:103 throws. By then server.js:96-98 has already stored the empty
  session `{currentQuestion: 0, answers: []}` for an unknown user, so the
  failed request leaves that session behind. The model takes `message` as a
  string and does not model this failure.
- `userId` is used as a property key, so JavaScript converts it with
  `String()`: `42` and `"42"` share one session, and a missing `userId`
  shares the session stored under "undefined". Nothing throws. `UserId =
  string` models the key after that conversion.
- A `userId` naming an inherited property of the plain object used as the
  table, such as "constructor", reads that property instead of a session.
  The table is modelled as a map with no inherited keys.
- The `/email` route does not appear in server.js, so its routing and
  validation are not modelled. Parsing the generated email JSON is not
  modelled either.
- Email.UserContent: the context is taken as an already-formatted string.
  The source interpolates whatever value it receives.
- `console.error` logging.
