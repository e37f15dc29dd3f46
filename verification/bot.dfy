/** The reply decision of `good_job` in `run.py`, with the messaging I/O
    stripped away: given the sender's username (absent when the platform
    reports none), the configured allowed username and the message text,
    decide whether to answer and with what. */
module Bot {
  import opened Wrappers
  import opened Classifier
  import opened Selector
  import Text

  /** The sender is the configured user; an absent username never is. */
  predicate IsAuthorized(sender: Option<string>, allowed: string)
    ensures sender.None? ==> !IsAuthorized(sender, allowed)
    ensures IsAuthorized(sender, allowed) ==> sender.value == allowed
  {
    sender == Some(allowed)
  }

  /** The decision as a pure function; `pick` stands for the random draw
      that selects the reply. */
  function Decide(sender: Option<string>, allowed: string, text: string, pick: nat): (reply: Option<string>)
    ensures reply.Some? ==> reply.value in Responses && reply.value != ""
  {
    if !IsAuthorized(sender, allowed) then None
    else if !IsSuccessMessage(text) then None
    else Some(Choose(pick))
  }

  /** The handler as the source runs it: compare usernames, classify the
      text, then draw a reply. */
  method GoodJob(sender: Option<string>, allowed: string, text: string) returns (reply: Option<string>)
    ensures reply.Some? <==> IsAuthorized(sender, allowed) && IsSuccessMessage(text)
    ensures reply.Some? ==> reply.value in Responses && reply.value != ""
  {
    if sender != Some(allowed) {
      return None;
    }
    var success := CheckSuccessMessage(text);
    if !success {
      return None;
    }
    var emoji := GetSuccessMessage();
    return Some(emoji);
  }

  /** Authorization gate: a sender other than the configured user, including
      one without a username, gets no reply whatever the text. */
  lemma UnauthorizedGetsNoReply(sender: Option<string>, allowed: string, text: string, pick: nat)
    requires sender != Some(allowed)
    ensures Decide(sender, allowed, text, pick) == None
  {
  }

  /** Keyword gate: the configured user gets no reply for a text that is
      not a success report. */
  lemma NonSuccessGetsNoReply(allowed: string, text: string, pick: nat)
    requires !IsSuccessMessage(text)
    ensures Decide(Some(allowed), allowed, text, pick) == None
  {
  }

  /** A reply is sent exactly when the sender is the configured user and the
      text is a success report, and then it is an entry of the reply list. */
  lemma ReplyIff(sender: Option<string>, allowed: string, text: string, pick: nat)
    ensures Decide(sender, allowed, text, pick).Some? <==> IsAuthorized(sender, allowed) && IsSuccessMessage(text)
    ensures Decide(sender, allowed, text, pick).Some? ==> Decide(sender, allowed, text, pick).value in Responses
  {
  }

  /** For an accepted message every entry of the reply list is a possible
      reply: the draw alone decides which one is sent. */
  lemma EveryResponsePossible(allowed: string, text: string, r: string)
    requires IsSuccessMessage(text)
    requires r in Responses
    ensures exists pick: nat :: Decide(Some(allowed), allowed, text, pick) == Some(r)
  {
    ChooseCoversResponses(r);
    var pick: nat :| Choose(pick) == r;
    assert Decide(Some(allowed), allowed, text, pick) == Some(r);
  }

  /** The pure decision and the handler agree on whether to answer, and the
      handler's reply is one the decision can produce. */
  lemma GoodJobMatchesDecide(sender: Option<string>, allowed: string, text: string, reply: Option<string>)
    requires reply.Some? <==> IsAuthorized(sender, allowed) && IsSuccessMessage(text)
    requires reply.Some? ==> reply.value in Responses
    ensures exists pick: nat :: Decide(sender, allowed, text, pick) == reply
  {
    if reply.Some? {
      EveryResponsePossible(allowed, text, reply.value);
    } else {
      assert Decide(sender, allowed, text, 0) == reply;
    }
  }

  /** Worked case: the configured user reporting "finally done with chores"
      is congratulated. */
  lemma CongratulatedExample(allowed: string, pick: nat)
    ensures Decide(Some(allowed), allowed, "finally done with chores", pick).Some?
  {
    assert Text.OccursAt("finally done with chores", "done", 8);
    KeywordMatches("finally done with chores", "done");
  }

  /** Worked cases: another user sending "done" and the configured user
      sending "still working on it" are not answered. */
  lemma IgnoredExamples(allowed: string, other: Option<string>, pick: nat)
    requires other != Some(allowed)
    ensures Decide(other, allowed, "done", pick) == None
    ensures Decide(Some(allowed), allowed, "still working on it", pick) == None
  {
    NoMatchExample();
  }
}
