/** The response selector of `run.py`: one celebratory reply drawn from a
    fixed list. Which entry is drawn is left to the caller (`pick`) or to a
    non-deterministic choice; only membership in the list is specified. */
module Selector {

  /** The replies, in source order. The first fifteen are written code
      point by code point exactly as `run.py` spells them: celebration emoji
      as their UTF-8 bytes read under Windows-1252, with the bytes that code
      page leaves undefined dropped. */
  const Responses: seq<string> := [
    "\U{F0}\U{178}\U{17D}\U{2030}",
    "\U{F0}\U{178}\U{17D}\U{160}",
    "\U{F0}\U{178}\U{17D}\U{2C6}",
    "\U{F0}\U{178}\U{17D}",
    "\U{F0}\U{178}\U{17D}\U{2020}",
    "\U{F0}\U{178}\U{17D}\U{2021}",
    "\U{F0}\U{178}\U{2019}\U{AA}",
    "\U{E2}\U{A4}\U{EF}\U{B8}",
    "\U{E2}\U{AD}\U{EF}\U{B8}",
    "\U{E2}\U{153}\U{A8}",
    "\U{F0}\U{178}\U{152}\U{178}",
    "\U{F0}\U{178}\U{2019}\U{AB}",
    "\U{F0}\U{178}\U{152}\U{A0}",
    "\U{F0}\U{178}\U{152}\U{2C6}",
    "\U{F0}\U{178}\U{201D}\U{A5}",
    "Proud of you!",
    "You did it!",
    "You got a step closer to your ideal self!",
    "Improving, I see!",
    "You are doing great!",
    "Wow, look at you!",
    "You are a star!",
    "I knew you could do it!",
    "I'm glad I could help!",
    "You are amazing!",
    "You are awesome!",
    "You are incredible!",
    "You are inspiring!",
    "You are wonderful!",
    "You are simply the best!",
    "You should be proud of yourself!",
    "You are one of a kind!"
  ]

  /** The reply selected by the draw `pick`; every draw selects an entry. */
  function Choose(pick: nat): (r: string)
    ensures r in Responses
    ensures r != ""
  {
    Responses[pick % |Responses|]
  }

  /** The source's random choice: some entry of the list, never an empty
      string. */
  method GetSuccessMessage() returns (r: string)
    ensures r in Responses
    ensures r != ""
  {
    var i :| 0 <= i < |Responses|;
    r := Responses[i];
  }

  /** The list is non-empty, so the choice is always possible. */
  lemma ResponsesNonEmpty()
    ensures |Responses| == 32
    ensures forall r :: r in Responses ==> r != ""
  {
  }

  /** Draw `i` selects entry `i`, and draws repeat with the length of the
      list. */
  lemma ChooseByIndex(i: nat)
    ensures i < |Responses| ==> Choose(i) == Responses[i]
    ensures Choose(i + |Responses|) == Choose(i)
  {
    if i < |Responses| {
      assert i % |Responses| == i;
    }
    assert (i + |Responses|) % |Responses| == i % |Responses|;
  }

  /** Every entry of the list is selected by some draw. */
  lemma ChooseCoversResponses(r: string)
    requires r in Responses
    ensures exists pick: nat :: Choose(pick) == r
  {
    var i :| 0 <= i < |Responses| && Responses[i] == r;
    ChooseByIndex(i);
  }
}
