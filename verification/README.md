# good-job-bot: the reply decision, modelled in Dafny

good-job-bot is a Telegram bot that congratulates one configured user. When
that user sends a text message reporting a finished task, the bot answers with
a celebratory emoji or phrase. A message reports a finished task when its
lowercase form contains one of ten fixed keywords. Seven of them are words
("done", "fertig", "success", "erledigt", "completed", "geschaut",
"checked in"). Three are checkmark symbols. This project models that decision
and proves its properties.

Modules, one per piece of `good-job-bot/run.py`:

- `Wrappers` (`wrappers.dfy`): the `Option` type. It is used for an absent
  sender username, a missing substring position and a reply that is not sent.
- `Text` (`text.dfy`): ASCII lowercasing (`Lower`) and substring containment
  (`Contains`). It also has a naive search method, `Find`, proved against
  `Contains`, and a second, recursive reading of containment, `ContainsRec`,
  proved equivalent to `Contains`.
- `Classifier` (`classifier.dfy`): the keyword table and `IsSuccessMessage`.
  `CheckSuccessMessage` evaluates the keywords in order, as Python's `any`
  does.
- `Selector` (`responses.dfy`): the 32 replies. `Choose(pick)` takes the
  random draw as a parameter. `GetSuccessMessage` makes the choice
  non-deterministically.
- `Bot` (`bot.dfy`): `Decide`, the pure decision. `GoodJob` is the handler
  in the order the source runs it.

The checkmark keywords and the emoji replies are written code point by code
point, exactly as `run.py` spells them. In that file they are the UTF-8 bytes
of the emoji read as Windows-1252. For example, the ✅ keyword is the three
characters U+00E2 U+0153 U+2026. The model keeps that spelling. So the real emoji
U+2705 does not count as a checkmark keyword: the message "\u2705" on its
own is not a success report (`Classifier.GenuineCheckMarkDoesNotMatch`). If `run.py` holds the real
emoji rather than these code points, the three checkmark keywords and the
first fifteen replies change accordingly.

## Model

| member | source | states |
|---|---|---|
| Text.Contains | good-job-bot/run.py:58 | Python's `w in s`: w occurs at some position of s; it can only hold when w is no longer than s, and the empty string is in every string |
| Text.LowerChar | good-job-bot/run.py:58 | capitals A–Z move up by 32 code points (A, 65, becomes a, 97); every other character is unchanged; the result is never an ASCII capital |
| Text.Lower | good-job-bot/run.py:58 | lowercasing keeps the length and lowercases each position independently |
| Text.LowerConcat | good-job-bot/run.py:58 | lowercasing distributes over concatenation |
| Text.LowerIdempotent | good-job-bot/run.py:58 | the lowercase form has no capitals, and lowercasing it again changes nothing |
| Text.LowerFixedPoint | good-job-bot/run.py:58 | a string has no capitals exactly when lowercasing leaves it unchanged (both directions) |
| Text.Find | good-job-bot/run.py:58 | substring search returns the first position where the keyword occurs; it returns None exactly when the keyword occurs nowhere |
| Text.ContainsRecIff | good-job-bot/run.py:58 | "occurs at some position" agrees with "is a prefix of some suffix", both directions |
| Text.LowerKeepsContains | good-job-bot/run.py:58 | if w occurs in s, then lower(w) occurs in lower(s) |
| Text.ContainsExtend | good-job-bot/run.py:57-58 | a substring of s stays a substring of p + s + q |
| Text.EmptyContainsOnlyEmpty | good-job-bot/run.py:57-58 | the empty text contains only the empty string |
| Text.LowerExcludes | good-job-bot/run.py:58 | lower(s) cannot contain w if s lacks a character of w in both its lower and upper case |
| Classifier.IsSuccessMessage | good-job-bot/run.py:55-71 | the definition the classifier loop is proved against: some keyword of the ten is a substring of the lowercased message; its contract adds that only a non-empty message can be one |
| Classifier.CheckSuccessMessage | good-job-bot/run.py:55-71 | the ordered, short-circuit keyword loop returns true exactly when some keyword is a substring of the lowercased message |
| Classifier.KeywordsAreLowerCase | good-job-bot/run.py:59-70 | every keyword is non-empty and is a fixed point of lowercasing |
| Classifier.EmptyIsNotSuccess | good-job-bot/run.py:57-71 | the empty message is never a success message |
| Classifier.CaseInsensitive | good-job-bot/run.py:58-69 | a message with any spelling of a keyword that lowercases to the keyword ("DONE", "Done") is a success message |
| Classifier.KeywordMatches | good-job-bot/run.py:57-71 | a message with a keyword in it verbatim is a success message, with no word-boundary condition |
| Classifier.LowerInvariant | good-job-bot/run.py:58 | lowercasing the message first does not change its classification |
| Classifier.Monotone | good-job-bot/run.py:57-58 | a success message stays one with any prefix and suffix added |
| Classifier.UpperCaseExamples | good-job-bot/run.py:58-60 | "DONE" and "Done" are success messages |
| Classifier.SubstringExamples | good-job-bot/run.py:57-69 | "undone" and "gym: checked in!" are success messages |
| Classifier.LacksKeyLetters | good-job-bot/run.py:59-70 | a message with no d, D, e, E or U+00E2 is never a success message |
| Classifier.NoMatchExample | good-job-bot/run.py:57-71 | "still working on it" is not a success message |
| Classifier.GenuineCheckMarkDoesNotMatch | good-job-bot/run.py:66-68 | with the checkmark keywords spelled as in the source, the real emoji U+2705 does not match |
| Selector.Choose | good-job-bot/run.py:76-111 | every draw selects a non-empty entry of the fixed reply list |
| Selector.GetSuccessMessage | good-job-bot/run.py:74-111 | the random choice returns a non-empty entry of the reply list |
| Selector.ResponsesNonEmpty | good-job-bot/run.py:77-110 | the reply list has 32 entries, none of them empty |
| Selector.ChooseByIndex | good-job-bot/run.py:76 | draw i selects entry i; draws repeat with the length of the list |
| Selector.ChooseCoversResponses | good-job-bot/run.py:76-111 | every entry of the list is selected by some draw |
| Bot.IsAuthorized | good-job-bot/run.py:116-118 | the sender's username equals the configured one exactly; an absent username is never authorized |
| Bot.Decide | good-job-bot/run.py:114-125 | any reply is a non-empty entry of the reply list |
| Bot.GoodJob | good-job-bot/run.py:114-125 | the handler replies exactly when the sender is the configured user and the text is a success message; the reply is then an entry of the list |
| Bot.UnauthorizedGetsNoReply | good-job-bot/run.py:116-119 | any sender other than the configured user, an absent username included, gets no reply for any text |
| Bot.NonSuccessGetsNoReply | good-job-bot/run.py:121-122 | the configured user gets no reply when the text is not a success message |
| Bot.ReplyIff | good-job-bot/run.py:116-125 | a reply is sent if and only if the sender is authorized and the text is a success message; the reply comes from the list |
| Bot.EveryResponsePossible | good-job-bot/run.py:124-125 | for an accepted message, every entry of the list is a possible reply |
| Bot.GoodJobMatchesDecide | good-job-bot/run.py:114-125 | each reply the handler may give is one the pure decision produces for some draw |
| Bot.CongratulatedExample | good-job-bot/run.py:116-125 | the configured user sending "finally done with chores" gets a reply |
| Bot.IgnoredExamples | good-job-bot/run.py:116-122 | another user sending "done" gets no reply; the configured user sending "still working on it" gets no reply |

## Left out

- Text.Lower: it lowercases only ASCII A–Z. Python's `str.lower` applies full Unicode case mapping, which changes more characters and can change the length. It maps Â, Ï and Œ to â, ï and œ, which spell the checkmark keywords in the source. It also maps non-ASCII characters to ASCII letters: U+212A KELVIN SIGN becomes `k` and U+0130 becomes `i` followed by U+0307. So `"CHEC\u212AED IN"` and `"ÂŒ…"` are success messages in the source and not in the model. The ASCII keywords written with ASCII capitals ("DONE", "Checked In") behave the same in both.
- Text.LowerChar: the same gap, one character at a time. Only A–Z are changed, while Python also lowercases non-ASCII capitals such as Â, Œ and U+212A.
- Classifier.LacksKeyLetters: holds for the ASCII lowercasing of the model only. In the source, `"ÂŒ…"` has none of d, D, e, E and U+00E2 yet lowercases to the ✅ keyword, and U+212A or similar characters can also produce keyword letters.
- `start`, `help_command` and `main` (run.py:41-52, 134-152): these only register handlers and call into the Telegram library (`reply_html`, `mention_html`, `ForceReply`, `run_polling`). They contain no logic of their own.
- The message filter `filters.TEXT & ~filters.COMMAND` (run.py:145): the library applies it. The model takes the text as a present string.
- A message whose `from_user` is missing: the source would fail when it reads `.username`. The model starts from the username, which may be absent.
- `get_const` / `dotenv_values` (run.py:128-131): this file I/O re-reads `.env` on every call. The model takes the allowed username as an immutable parameter. A missing key, which the source reports as a `KeyError`, is not modelled.
- Bot.UnauthorizedGetsNoReply: the allowed username is always a string in the model. `dotenv_values` maps a `USERNAME` line without a value to `None`. Then `is_username != should_username` (run.py:118) is false for a sender without a username, and the source lets that sender through the username check and replies whenever the text is a success message. The model does not cover this configuration.
- Bot.IsAuthorized: for the same reason, "an absent username is never authorized" holds only while the configured username is a string; with a valueless `USERNAME` line the source treats an absent username as a match.
- Selector.GetSuccessMessage: only membership in the list is stated. The uniform distribution of `random.choice` is not modelled.
- Sending the reply (`reply_text`, run.py:125) is an outbound network call. The model returns the reply as `Some(text)` instead.
- Logging setup (run.py:33-36) and the unused `re` import.
- `good-job-bot/old_run.py`: an earlier `/hello` echo bot. It is built only from Telegram wiring and `.env` reading, and it has no logic to model.
