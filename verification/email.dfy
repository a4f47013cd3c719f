/**
 * The user message of the email-drafting request in `generateEmail`: the
 * answer context wrapped in a `<context>` tag, followed by the previous draft
 * in a `<prev_email>` tag when there is one. The system prompt is an opaque
 * constant and the request itself is a network call; neither is modelled.
 */
module Email {
  import opened Wrappers

  const ContextOpen: string := "<context>"
  const ContextClose: string := "</context>"
  const PrevOpen: string := "\n<prev_email>"
  const PrevClose: string := "</prev_email>"

  predicate EndsWith(s: string, suffix: string) {
    |suffix| <= |s| && s[|s| - |suffix|..] == suffix
  }

  function ContextTag(context: string): string {
    ContextOpen + context + ContextClose
  }

  /** The `previousEmail = ""` default parameter: an omitted draft reads as "". */
  function PreviousOrDefault(previousEmail: Option<string>): string {
    if previousEmail.Some? then previousEmail.value else ""
  }

  /** The user content sent with the email request. The draft block is added
      exactly when the previous draft is truthy, that is non-empty. */
  function UserContent(context: string, previousEmail: Option<string>): (r: string)
    ensures var tag := ContextTag(context);
      |tag| <= |r| && r[..|tag|] == tag
    ensures |r| == |context| + 19 + (if PreviousOrDefault(previousEmail) == "" then 0 else |PreviousOrDefault(previousEmail)| + 26)
    ensures EndsWith(r, PrevClose) <==> PreviousOrDefault(previousEmail) != ""
  {
    var prev := PreviousOrDefault(previousEmail);
    var tag := ContextTag(context);
    if prev != "" then
      var r := tag + PrevOpen + prev + PrevClose;
      assert r[|r| - |PrevClose|..] == PrevClose;
      r
    else
      assert tag[|tag| - 2] == 't';
      tag
  }

  /** Reads the previous draft back out of a user content built for `context`. */
  function PreviousEmailOf(content: string, context: string): string {
    var start := |ContextTag(context)| + |PrevOpen|;
    if start + |PrevClose| <= |content| then content[start..|content| - |PrevClose|] else ""
  }

  /** Round trip: the draft that went in (or "" when there was none) comes back out. */
  lemma PreviousEmailRoundTrip(context: string, previousEmail: Option<string>)
    ensures PreviousEmailOf(UserContent(context, previousEmail), context) == PreviousOrDefault(previousEmail)
  {
    var prev := PreviousOrDefault(previousEmail);
    var tag := ContextTag(context);
    if prev != "" {
      var r := tag + PrevOpen + prev + PrevClose;
      assert r[|tag| + |PrevOpen|..|r| - |PrevClose|] == prev;
    }
  }

  /** Leaving the draft out and passing "" produce the same content, exactly the context tag. */
  lemma DefaultIsEmpty(context: string)
    ensures UserContent(context, None) == UserContent(context, Some(""))
    ensures UserContent(context, None) == "<context>" + context + "</context>"
  {
  }

  /** With a non-empty draft the content is the context tag, a line break and the draft tag. */
  lemma WithPreviousDraft(context: string, draft: string)
    requires draft != ""
    ensures UserContent(context, Some(draft))
         == "<context>" + context + "</context>\n<prev_email>" + draft + "</prev_email>"
  {
  }
}
