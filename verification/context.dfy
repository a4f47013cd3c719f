/**
 * `formatContext(questions, answers)`: the conversation history handed to
 * the text generator. It starts from a fixed header and, walking the answer
 * array by index, appends one block per truthy answer.
 */
module Context {
  import opened Wrappers

  const Header: string := "Conversation History:\n"

  /** JavaScript truthiness of an `answers[i]` slot: a hole and "" are falsy. */
  predicate Truthy(a: Option<string>) {
    a.Some? && a.value != ""
  }

  /** `${questions[i]}`: an index past the end of the list reads "undefined". */
  function QuestionAt(qs: seq<string>, i: nat): string {
    if i < |qs| then qs[i] else "undefined"
  }

  /** The text one answered question contributes. */
  function Block(question: string, answer: string): string {
    "Q: " + question + "\nA: " + answer + "\n"
  }

  /** What slot `i` holding `a` adds to the history. */
  function Contribution(qs: seq<string>, i: nat, a: Option<string>): string {
    if Truthy(a) then Block(QuestionAt(qs, i), a.value) else ""
  }

  /** The history after the loop has visited indices `0 .. |answers| - 1`. */
  function FormatContext(qs: seq<string>, answers: seq<Option<string>>): (r: string)
    ensures |Header| <= |r| && r[..|Header|] == Header
    decreases |answers|
  {
    if |answers| == 0 then Header
    else
      var n := |answers| - 1;
      FormatContext(qs, answers[..n]) + Contribution(qs, n, answers[n])
  }

  /** The loop of `formatContext` as written: a mutable accumulator and an index. */
  method BuildContext(qs: seq<string>, answers: seq<Option<string>>) returns (context: string)
    ensures context == FormatContext(qs, answers)
  {
    context := Header;
    var i := 0;
    while i < |answers|
      invariant 0 <= i <= |answers|
      invariant context == FormatContext(qs, answers[..i])
    {
      assert answers[..i + 1][..i] == answers[..i];
      if Truthy(answers[i]) {
        context := context + Block(QuestionAt(qs, i), answers[i].value);
      }
      i := i + 1;
    }
    assert answers[..|answers|] == answers;
  }

  // ---------------------------------------------------------------------
  // An independent description: the header followed by the blocks of the
  // truthy slots, in increasing index order.

  /** The indices of the truthy slots, in increasing order. */
  function TruthyIndices(answers: seq<Option<string>>): (ix: seq<nat>)
    ensures forall k :: 0 <= k < |ix| ==> ix[k] < |answers| && Truthy(answers[ix[k]])
    ensures forall k, l :: 0 <= k < l < |ix| ==> ix[k] < ix[l]
    ensures forall i :: 0 <= i < |answers| && Truthy(answers[i]) ==> i in ix
    decreases |answers|
  {
    if |answers| == 0 then []
    else
      var n := |answers| - 1;
      var front := TruthyIndices(answers[..n]);
      if Truthy(answers[n]) then front + [n] else front
  }

  /** The blocks of the slots listed in `ix`, in the order listed. */
  function Blocks(qs: seq<string>, answers: seq<Option<string>>, ix: seq<nat>): string
    requires forall k :: 0 <= k < |ix| ==> ix[k] < |answers| && answers[ix[k]].Some?
    decreases |ix|
  {
    if |ix| == 0 then ""
    else Block(QuestionAt(qs, ix[0]), answers[ix[0]].value) + Blocks(qs, answers, ix[1..])
  }

  lemma {:induction false} BlocksSnoc(qs: seq<string>, answers: seq<Option<string>>, ix: seq<nat>, n: nat)
    requires forall k :: 0 <= k < |ix| ==> ix[k] < |answers| && answers[ix[k]].Some?
    requires n < |answers| && answers[n].Some?
    ensures Blocks(qs, answers, ix + [n])
         == Blocks(qs, answers, ix) + Block(QuestionAt(qs, n), answers[n].value)
    decreases |ix|
  {
    if |ix| == 0 {
      assert (ix + [n])[1..] == [];
    } else {
      assert (ix + [n])[1..] == ix[1..] + [n];
      BlocksSnoc(qs, answers, ix[1..], n);
    }
  }

  /** Blocks read only the slots they list. */
  lemma {:induction false} BlocksOnPrefix(qs: seq<string>, answers: seq<Option<string>>, m: nat, ix: seq<nat>)
    requires m <= |answers|
    requires forall k :: 0 <= k < |ix| ==> ix[k] < m && answers[ix[k]].Some?
    ensures Blocks(qs, answers[..m], ix) == Blocks(qs, answers, ix)
    decreases |ix|
  {
    if |ix| > 0 {
      BlocksOnPrefix(qs, answers, m, ix[1..]);
    }
  }

  lemma ConcatAssoc(a: string, b: string, c: string)
    ensures a + b + c == a + (b + c)
  {
  }

  /** `formatContext` is the header followed by exactly one block per truthy
      answer, in increasing index order, and nothing else. */
  lemma {:induction false} FormatContextIsBlocks(qs: seq<string>, answers: seq<Option<string>>)
    ensures FormatContext(qs, answers) == Header + Blocks(qs, answers, TruthyIndices(answers))
    decreases |answers|
  {
    if |answers| > 0 {
      var n := |answers| - 1;
      FormatContextIsBlocks(qs, answers[..n]);
      IsBlocksStep(qs, answers);
    }
  }

  /** The inductive step of `FormatContextIsBlocks`: one more slot. */
  lemma IsBlocksStep(qs: seq<string>, answers: seq<Option<string>>)
    requires |answers| > 0
    requires var prefix := answers[..|answers| - 1];
      FormatContext(qs, prefix) == Header + Blocks(qs, prefix, TruthyIndices(prefix))
    ensures FormatContext(qs, answers) == Header + Blocks(qs, answers, TruthyIndices(answers))
  {
    var n := |answers| - 1;
    var prefix := answers[..n];
    var front := TruthyIndices(prefix);
    BlocksOnPrefix(qs, answers, n, front);
    var before := Blocks(qs, answers, front);
    assert FormatContext(qs, answers) == Header + before + Contribution(qs, n, answers[n]);
    if Truthy(answers[n]) {
      BlocksSnoc(qs, answers, front, n);
      ConcatAssoc(Header, before, Contribution(qs, n, answers[n]));
    } else {
      assert Header + before + "" == Header + before;
    }
  }

  // ---------------------------------------------------------------------
  // Properties of the history string.

  lemma NoAnswers(qs: seq<string>)
    ensures FormatContext(qs, []) == "Conversation History:\n"
  {
  }

  /** Recording a truthy answer in the next slot appends its block. */
  lemma AppendTruthy(qs: seq<string>, answers: seq<Option<string>>, a: Option<string>)
    requires Truthy(a)
    ensures FormatContext(qs, answers + [a])
         == FormatContext(qs, answers) + "Q: " + QuestionAt(qs, |answers|) + "\nA: " + a.value + "\n"
  {
    assert (answers + [a])[..|answers|] == answers;
  }

  /** Recording a falsy answer (a hole or "") in the next slot changes nothing. */
  lemma AppendFalsy(qs: seq<string>, answers: seq<Option<string>>, a: Option<string>)
    requires !Truthy(a)
    ensures FormatContext(qs, answers + [a]) == FormatContext(qs, answers)
  {
    assert (answers + [a])[..|answers|] == answers;
  }

  /** Falsy slots contribute nothing: two answer arrays that agree on their
      truthy slots give the same history. */
  lemma {:induction false} FalsyIgnored(qs: seq<string>, a1: seq<Option<string>>, a2: seq<Option<string>>)
    requires |a1| == |a2|
    requires forall i :: 0 <= i < |a1| && (Truthy(a1[i]) || Truthy(a2[i])) ==> a1[i] == a2[i]
    ensures FormatContext(qs, a1) == FormatContext(qs, a2)
    decreases |a1|
  {
    if |a1| > 0 {
      var n := |a1| - 1;
      FalsyIgnored(qs, a1[..n], a2[..n]);
    }
  }

  /** Only the questions at answered indices are read: questions past the
      end of the answer array never reach the history. */
  lemma {:induction false} LaterQuestionsIgnored(q1: seq<string>, q2: seq<string>, answers: seq<Option<string>>)
    requires forall i :: 0 <= i < |answers| ==> QuestionAt(q1, i) == QuestionAt(q2, i)
    ensures FormatContext(q1, answers) == FormatContext(q2, answers)
    decreases |answers|
  {
    if |answers| > 0 {
      var n := |answers| - 1;
      LaterQuestionsIgnored(q1, q2, answers[..n]);
    }
  }

  /** Every history extends the history of any shorter prefix of the answers. */
  lemma {:induction false} PrefixExtends(qs: seq<string>, answers: seq<Option<string>>, m: nat)
    requires m <= |answers|
    ensures var short := FormatContext(qs, answers[..m]);
      var long := FormatContext(qs, answers);
      |short| <= |long| && long[..|short|] == short
    decreases |answers|
  {
    if m < |answers| {
      var n := |answers| - 1;
      assert answers[..n][..m] == answers[..m];
      PrefixExtends(qs, answers[..n], m);
    } else {
      assert answers[..m] == answers;
    }
  }
}
