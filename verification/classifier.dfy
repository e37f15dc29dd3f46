/** The success-message classifier of `run.py`: a message reports success
    when one of ten fixed keywords is a substring of its lowercase form. */
module Classifier {
  import opened Text

  /** The keyword table, in source order. The three entries after "geschaut"
      are written code point by code point exactly as `run.py` spells them:
      they are the checkmark emoji ✔️, ✅ and ☑️ as their UTF-8 bytes read
      under Windows-1252, with the bytes that code page leaves undefined
      dropped. */
  const Keywords: seq<string> := [
    "done",
    "fertig",
    "success",
    "erledigt",
    "completed",
    "geschaut",
    "\U{E2}\U{153}\U{201D}\U{EF}\U{B8}",
    "\U{E2}\U{153}\U{2026}",
    "\U{E2}\U{2DC}\U{2018}\U{EF}\U{B8}",
    "checked in"
  ]

  /** `message` is a success report: some keyword occurs in its lowercase form.
      This is the definition `CheckSuccessMessage` is proved against. */
  predicate IsSuccessMessage(message: string)
    ensures IsSuccessMessage(message) ==> |message| > 0
  {
    exists k :: k in Keywords && Contains(Lower(message), k)
  }

  /** The classifier as the source evaluates it: for each keyword in order,
      lowercase the message and search it for the keyword, stopping at the
      first one found. */
  method CheckSuccessMessage(message: string) returns (b: bool)
    ensures b <==> IsSuccessMessage(message)
  {
    var i := 0;
    while i < |Keywords|
      invariant 0 <= i <= |Keywords|
      invariant forall j :: 0 <= j < i ==> !Contains(Lower(message), Keywords[j])
    {
      var lowered := Lower(message);
      var found := Find(lowered, Keywords[i]);
      if found.Some? {
        return true;
      }
      i := i + 1;
    }
    return false;
  }

  /** Every keyword is non-empty and already lowercase, so lowercasing a
      keyword gives the keyword back. */
  lemma KeywordsAreLowerCase()
    ensures forall k :: k in Keywords ==> |k| > 0 && IsLowerCase(k) && Lower(k) == k
  {
    forall i | 0 <= i < |Keywords|
      ensures |Keywords[i]| > 0 && IsLowerCase(Keywords[i]) && Lower(Keywords[i]) == Keywords[i]
    {
      KeywordIsLowerCase(i);
    }
  }

  /** One keyword at a time: keyword `i` is non-empty and lowercase. */
  lemma KeywordIsLowerCase(i: nat)
    requires i < |Keywords|
    ensures |Keywords[i]| > 0 && IsLowerCase(Keywords[i]) && Lower(Keywords[i]) == Keywords[i]
  {
    LowerFixedPoint(Keywords[i]);
  }

  /** The empty message is never a success report. */
  lemma EmptyIsNotSuccess()
    ensures !IsSuccessMessage("")
  {
  }

  /** Case-insensitivity: a message containing any spelling `w` of a keyword
      that lowercases to the keyword ("DONE", "Done", "CheckeD In", ...) is a
      success report. */
  lemma CaseInsensitive(message: string, w: string)
    requires Lower(w) in Keywords
    requires Contains(message, w)
    ensures IsSuccessMessage(message)
  {
    LowerKeepsContains(message, w);
  }

  /** A message that contains a keyword verbatim is a success report. */
  lemma KeywordMatches(message: string, k: string)
    requires k in Keywords
    requires Contains(message, k)
    ensures IsSuccessMessage(message)
  {
    KeywordsAreLowerCase();
    CaseInsensitive(message, k);
  }

  /** The classification of a message does not change when the message is
      lowercased first. */
  lemma LowerInvariant(message: string)
    ensures IsSuccessMessage(Lower(message)) <==> IsSuccessMessage(message)
  {
    LowerIdempotent(message);
  }

  /** Monotonicity: text around a success report keeps it one. */
  lemma Monotone(message: string, p: string, q: string)
    requires IsSuccessMessage(message)
    ensures IsSuccessMessage(p + message + q)
  {
    var k :| k in Keywords && Contains(Lower(message), k);
    LowerConcat(p + message, q);
    LowerConcat(p, message);
    ContainsExtend(Lower(message), k, Lower(p), Lower(q));
  }

  /** Any letter case of a keyword matches: "DONE" and "Done" report success. */
  lemma UpperCaseExamples()
    ensures IsSuccessMessage("DONE")
    ensures IsSuccessMessage("Done")
  {
    assert IsSuccessMessage("DONE") by {
      assert Lower("DONE") == "done" && OccursAt("DONE", "DONE", 0);
      CaseInsensitive("DONE", "DONE");
    }
    assert Lower("Done") == "done" && OccursAt("Done", "Done", 0);
    CaseInsensitive("Done", "Done");
  }

  /** Matching is on substrings, not words: "undone" and "gym: checked in!"
      report success. */
  lemma SubstringExamples()
    ensures IsSuccessMessage("undone")
    ensures IsSuccessMessage("gym: checked in!")
  {
    assert IsSuccessMessage("undone") by {
      assert OccursAt("undone", "done", 2);
      KeywordMatches("undone", "done");
    }
    assert OccursAt("gym: checked in!", "checked in", 5);
    KeywordMatches("gym: checked in!", "checked in");
  }

  /** Every ASCII keyword contains `d` or `e` and every checkmark keyword
      starts with U+00E2, so a message with none of `d`, `D`, `e`, `E` and
      U+00E2 is never a success report. */
  lemma LacksKeyLetters(message: string)
    requires 'd' !in message && 'D' !in message
    requires 'e' !in message && 'E' !in message
    requires '\U{E2}' !in message
    ensures !IsSuccessMessage(message)
  {
    LowerExcludes(message, Keywords[0], 'd');
    LowerExcludes(message, Keywords[1], 'e');
    LowerExcludes(message, Keywords[2], 'e');
    LowerExcludes(message, Keywords[3], 'e');
    LowerExcludes(message, Keywords[4], 'e');
    LowerExcludes(message, Keywords[5], 'e');
    LowerExcludes(message, Keywords[6], '\U{E2}');
    LowerExcludes(message, Keywords[7], '\U{E2}');
    LowerExcludes(message, Keywords[8], '\U{E2}');
    LowerExcludes(message, Keywords[9], 'e');
  }

  /** A message with none of the keywords is not a success report. */
  lemma NoMatchExample()
    ensures !IsSuccessMessage("still working on it")
  {
    LacksKeyLetters("still working on it");
  }

  /** The checkmark keywords are matched only in the spelling the source
      uses: a message made of the genuine check mark emoji U+2705 is not a
      success report. */
  lemma GenuineCheckMarkDoesNotMatch()
    ensures !IsSuccessMessage("\U{2705}")
  {
    LacksKeyLetters("\U{2705}");
  }
}
