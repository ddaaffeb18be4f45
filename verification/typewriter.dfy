/** The typing effect on the hero title. The element is emptied, then a
    self-rescheduling step appends the next character of the text and
    schedules itself again, until every character has been appended. The
    delay between steps is a timer and is not modelled. */
module Typewriter {

  /** The text being typed, the index of the next character, and the
      element's content so far. */
  datatype Typing = Typing(text: string, next: nat, content: string)

  /** The effect's start: the element is cleared. */
  function Begin(text: string): Typing {
    Typing(text, 0, "")
  }

  /** Whether a step still has a character to append (and so reschedules
      itself). */
  predicate Pending(t: Typing) {
    t.next < |t.text|
  }

  /** The content so far is exactly the part of the text already visited. */
  predicate Valid(t: Typing) {
    t.next <= |t.text| && t.content == t.text[..t.next]
  }

  /** One step of the effect: append the next character and move on, or do
      nothing once the text is exhausted. */
  function Step(t: Typing): (r: Typing)
    ensures r.text == t.text
    ensures Pending(t) ==> r.next == t.next + 1 && r.content == t.content + [t.text[t.next]]
    ensures !Pending(t) ==> r == t
    ensures Valid(t) ==> Valid(r)
  {
    if Pending(t) then
      assert t.text[..t.next + 1] == t.text[..t.next] + [t.text[t.next]];
      Typing(t.text, t.next + 1, t.content + [t.text[t.next]])
    else t
  }

  /** `k` steps. */
  function Run(t: Typing, k: nat): Typing
    decreases k
  {
    if k == 0 then t else Run(Step(t), k - 1)
  }

  /** After `k` steps from the start the content is the first `min(k, |text|)`
      characters of the text. */
  lemma {:induction false} RunPrefix(text: string, k: nat)
    ensures var n := if k <= |text| then k else |text|;
      Run(Begin(text), k) == Typing(text, n, text[..n])
  {
    RunFrom(Begin(text), k);
  }

  lemma {:induction false} RunFrom(t: Typing, k: nat)
    requires Valid(t)
    ensures var n := if t.next + k <= |t.text| then t.next + k else |t.text|;
      Run(t, k) == Typing(t.text, n, t.text[..n])
    decreases k
  {
    if k > 0 {
      RunFrom(Step(t), k - 1);
    }
  }

  /** The effect stops after exactly `|text|` steps: it is still pending
      after `k` steps exactly when `k < |text|`, and then the content is
      the whole text. */
  lemma StopsAfterLength(text: string, k: nat)
    ensures Pending(Run(Begin(text), k)) <==> k < |text|
    ensures k >= |text| ==> Run(Begin(text), k).content == text
  {
    RunPrefix(text, k);
  }

  /** The whole effect, driven step by step; `steps` counts the characters
      appended. */
  method TypeOut(text: string) returns (content: string, steps: nat)
    ensures content == text
    ensures steps == |text|
  {
    var t := Begin(text);
    steps := 0;
    while Pending(t)
      invariant Valid(t) && t.text == text
      invariant steps == t.next
      decreases |text| - t.next
    {
      t := Step(t);
      steps := steps + 1;
    }
    content := t.content;
  }
}
