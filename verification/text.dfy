/**
 * The string normalisation the chat handler applies before comparing a
 * message with "hi": `message.toLowerCase().trim()`.
 *
 * Lower-casing is modelled on ASCII letters only and trimming on the ASCII
 * white-space characters JavaScript strips (space, tab, line feed, vertical
 * tab, form feed, carriage return).
 */
module Text {

  predicate IsSpace(c: char) {
    c == ' ' || c == '\t' || c == '\n' || c == '\U{B}' || c == '\U{C}' || c == '\r'
  }

  /** `s` has a white-space character at position `k`. */
  predicate SpaceAt(s: string, k: int) {
    0 <= k < |s| && IsSpace(s[k])
  }

  predicate AllSpace(s: string) {
    forall k :: 0 <= k < |s| ==> IsSpace(s[k])
  }

  function LowerChar(c: char): (d: char)
    ensures 'A' <= c <= 'Z' ==> 'a' <= d <= 'z' && d as int - c as int == 32
    ensures !('A' <= c <= 'Z') ==> d == c
  {
    if 'A' <= c <= 'Z' then (c as int + 32) as char else c
  }

  /** `toLowerCase()` on ASCII: letters map one to one, everything else stays. */
  function Lower(s: string): (r: string)
    ensures |r| == |s|
    ensures forall k :: 0 <= k < |s| ==> r[k] == LowerChar(s[k])
  {
    seq(|s|, k requires 0 <= k < |s| => LowerChar(s[k]))
  }

  /** Number of white-space characters at the start of `s`. */
  function LeadingSpace(s: string): (n: nat)
    ensures n <= |s|
    ensures forall k :: 0 <= k < n ==> IsSpace(s[k])
    ensures n < |s| ==> !IsSpace(s[n])
  {
    if |s| > 0 && IsSpace(s[0]) then 1 + LeadingSpace(s[1..]) else 0
  }

  /** Number of white-space characters at the end of `s`. */
  function TrailingSpace(s: string): (n: nat)
    ensures n <= |s|
    ensures forall k :: |s| - n <= k < |s| ==> IsSpace(s[k])
    ensures n < |s| ==> !IsSpace(s[|s| - 1 - n])
  {
    if |s| > 0 && IsSpace(s[|s| - 1]) then 1 + TrailingSpace(s[..|s| - 1]) else 0
  }

  /** `trim()`: the part of `s` between its leading and trailing white space. */
  function Trim(s: string): (r: string)
    ensures var i := LeadingSpace(s);
      && i + |r| <= |s|
      && r == s[i..i + |r|]
      && (forall k :: i + |r| <= k < |s| ==> IsSpace(s[k]))
    ensures r == [] || (!IsSpace(r[0]) && !IsSpace(r[|r| - 1]))
  {
    var i := LeadingSpace(s);
    var rest := s[i..];
    var j := TrailingSpace(rest);
    assert j < |rest| ==> rest[0] == s[i];
    rest[..|rest| - j]
  }

  /** The normal form the handler compares with "hi". */
  function Normalise(message: string): string {
    Trim(Lower(message))
  }

  predicate IsHi(message: string) {
    Normalise(message) == "hi"
  }

  /** The contract of `LeadingSpace` determines it. */
  lemma LeadingSpaceUnique(s: string, n: nat)
    requires n <= |s|
    requires forall k :: 0 <= k < n ==> IsSpace(s[k])
    requires n < |s| ==> !IsSpace(s[n])
    ensures LeadingSpace(s) == n
  {
    var m := LeadingSpace(s);
    assert m < n ==> SpaceAt(s, m);
    assert n < m ==> SpaceAt(s, n);
  }

  /** Trimming recovers any text that neither starts nor ends with white
      space from between two runs of white space. */
  lemma TrimPadded(pre: string, x: string, post: string)
    requires AllSpace(pre) && AllSpace(post)
    requires x == [] || (!IsSpace(x[0]) && !IsSpace(x[|x| - 1]))
    ensures Trim(pre + x + post) == x
  {
    var w := pre + x + post;
    var r := Trim(w);
    var e := |pre| + |x|;
    assert forall k :: 0 <= k < |pre| ==> w[k] == pre[k];
    assert forall k :: |pre| <= k < e ==> w[k] == x[k - |pre|];
    assert forall k :: e <= k < |w| ==> w[k] == post[k - e];
    if x == [] {
      LeadingSpaceUnique(w, |w|);
    } else {
      LeadingSpaceUnique(w, |pre|);
      assert |r| < |x| ==> SpaceAt(w, e - 1);
      assert |r| > |x| ==> SpaceAt(r, |r| - 1);
      assert |r| == |x|;
      assert r == w[|pre|..e];
    }
  }

  /** Every spelling of "Hi" with any capitalisation and surrounding white
      space passes the activation gate. */
  lemma HiAccepted(pre: string, h: char, i: char, post: string)
    requires AllSpace(pre) && AllSpace(post)
    requires h == 'h' || h == 'H'
    requires i == 'i' || i == 'I'
    ensures IsHi(pre + [h, i] + post)
  {
    var m := pre + [h, i] + post;
    var lpre := Lower(pre);
    var lpost := Lower(post);
    assert AllSpace(lpre) && AllSpace(lpost);
    assert Lower(m) == lpre + "hi" + lpost;
    TrimPadded(lpre, "hi", lpost);
  }

  /** Lower-casing neither creates nor removes white space. */
  lemma LowerKeepsSpace(s: string)
    ensures forall k :: SpaceAt(Lower(s), k) == SpaceAt(s, k)
    ensures LeadingSpace(Lower(s)) == LeadingSpace(s)
  {
    var l := Lower(s);
    forall k
      ensures SpaceAt(l, k) == SpaceAt(s, k)
    {
      if 0 <= k < |s| {
        assert l[k] == LowerChar(s[k]);
      }
    }
    LeadingSpaceUnique(l, LeadingSpace(s));
  }

  /** Conversely, a message passes the gate only if it is "hi" in some
      capitalisation, surrounded by nothing but white space. */
  lemma HiShape(message: string)
    requires IsHi(message)
    ensures var n := LeadingSpace(message);
      && n + 2 <= |message|
      && LowerChar(message[n]) == 'h'
      && LowerChar(message[n + 1]) == 'i'
      && (forall k :: 0 <= k < n ==> IsSpace(message[k]))
      && (forall k :: n + 2 <= k < |message| ==> IsSpace(message[k]))
  {
    var l := Lower(message);
    var n := LeadingSpace(message);
    LowerKeepsSpace(message);
    var r := Trim(l);
    assert n + 2 <= |l| && r == l[n..n + 2];
    assert l[n] == r[0] && l[n + 1] == r[1];
    forall k | n + 2 <= k < |message|
      ensures IsSpace(message[k])
    {
      assert SpaceAt(l, k);
    }
  }

  lemma HiExamples()
    ensures IsHi("Hi") && IsHi("hi") && IsHi("  HI\n")
    ensures !IsHi("hello") && !IsHi("h i") && !IsHi("")
  {
    HiAccepted("", 'H', 'i', "");
    assert "" + ['H', 'i'] + "" == "Hi";
    HiAccepted("", 'h', 'i', "");
    assert "" + ['h', 'i'] + "" == "hi";
    HiAccepted("  ", 'H', 'I', "\n");
    assert "  " + ['H', 'I'] + "\n" == "  HI\n";
    if IsHi("hello") { HiShape("hello"); }
    if IsHi("h i") { HiShape("h i"); }
    if IsHi("") { HiShape(""); }
  }
}
