# Tiffin poll bot: poll store and message handler

A model of the order-taking core of a WhatsApp "tiffin" bot (`bot.js`). The
bot keeps a process-wide table of named polls and a record of the current
poll. Every incoming message is handled by one handler, which:

- takes the sender's display name (or `User`) and the message text;
- lower-cases and trims that text;
- answers `!ping` and `!help`;
- opens, ends and shows polls on `!startpoll [name]`, `!endpoll [name]` and
  `!showpoll [name]`;
- deletes the sender's order on `!cancel`;
- otherwise reads an order out of free text. Three regular expressions of the
  form `keyword\s*(\d+)` are applied, for the half, full and chapati
  categories. A non-zero order replaces the sender's entry in the open
  current poll.

Ending or showing a poll sends a summary. The summary lists one line per
participant, in key order, followed by the per-category totals.

The project is made up of these modules:

- `JsText`: the string operations the handler relies on. These are
  - the whitespace class shared by `\s` and `trim`;
  - ASCII `toLowerCase`;
  - `split(" ")`;
  - decimal rendering of numbers;
  - `parseInt` on a digit run.
- `Orders`: an order (half, full, chapati) and a poll's order book. The book
  is an association list, so it keeps the insertion order of a JavaScript
  object's keys. Assigning a key replaces it in place or appends it, and
  deleting a key removes it. Lemmas relate the list to its map view.
- `Aggregate`: `calculateTotals` and the per-participant listing. Both are
  loops, proved against recursive specification functions.
- `OrderParser`: the regular-expression order parser. It is defined the way
  the matcher runs: leftmost match, `\s*` then greedy `\d+`. It is proved
  equal to a declarative description of a match. A round-trip lemma covers
  order texts in the style of the bot's help text, `half 2, chapati 3`,
  with any separator free of letters and digits.
- `Commands`: the incoming message, its normalisation and the order in which
  the handler tests the commands.
- `Replies`: one reply per place where a message is sent, and its exact text.
- `PollSpec`: the store as a value (`State`). Each handler branch is a pure
  transition from state to state plus reply. Lemmas state what each branch
  promises and that every transition keeps the store well formed.
- `PollBot`: the class `PollStore`. Its `polls` and `currentPoll` fields are
  updated in place by one method per branch. Every method is proved to
  perform exactly the `PollSpec` transition and to keep the store valid.

The model follows the code in these respects, where a hardened design would
differ:

- Any sender may end any poll. There is no owner check.
- Ending a poll only clears its `active` flag. Its orders stay in the store.
- Ending a poll does not reset the current-poll name.
- There is a single store for the whole process, not one per conversation.
- Starting a poll that already exists but is closed resets it to empty.
- Several polls can be open at once: starting a poll while another is open
  leaves that one open, and only the current-poll name moves.

## Model

| member | source | states |
|---|---|---|
| `PollBot.PollStore.constructor` | bot.js:29-30 | the store starts with no polls and no current poll, and is valid |
| `PollBot.PollStore.StartPoll` | bot.js:112-128 | updates the fields exactly as `StartStep` says and keeps the store valid |
| `PollBot.PollStore.EndPoll` | bot.js:131-151 | clears `active` exactly as `EndStep` says; the reply's totals come from the totals loop and its listing from the listing loop |
| `PollBot.PollStore.ShowPoll` | bot.js:154-177 | the reply is `ShowReply` of the current store, and nothing is modified |
| `PollBot.PollStore.CancelOrder` | bot.js:180-190 | deletes the sender's entry exactly as `CancelStep` says and keeps the store valid |
| `PollBot.PollStore.RecordOrder` | bot.js:193-210 | stores the parsed order exactly as `RecordStep` says, or changes nothing and gives no reply |
| `PollBot.PollStore.DispatchCommand` | bot.js:91-210 | runs the branch `Dispatch` selects for the normalised text, with the same new state and reply |
| `PollBot.PollStore.HandleMessage` | bot.js:78-90 | one incoming message changes the fields and replies exactly as `Step` says, and keeps the store valid |
| `Aggregate.CalculateTotals` | bot.js:33-41 | each total is the sum of that category over every order; with no orders all three are 0 |
| `Aggregate.RenderListing` | bot.js:142-146 | the loop produces `ListingText`: one line per entry, in key order |
| `Aggregate.SumAfterPut` | bot.js:205 | after a sender's order is recorded, a category total gains the new quantity and loses that sender's old quantity |
| `Aggregate.SumAfterRemove` | bot.js:186 | deleting a sender's entry lowers every total by exactly that sender's order |
| `Aggregate.ListingAppend` | bot.js:143-145 | the listing of two books placed one after the other is the two listings concatenated |
| `Aggregate.ListingAfterPut` | bot.js:143-145 | after a put, a new sender's line comes last, and a returning sender's line is rewritten in its old place |
| `Aggregate.ListingLineCount` | bot.js:143-145 | when no name contains a newline, the listing has exactly one line per participant |
| `OrderParser.MatchAtSpec` | bot.js:194-196 | a match starts at `i` if and only if the text there is the keyword, then whitespace, then at least one digit; the captured value is the value of the maximal digit run |
| `OrderParser.FirstMatchNone` | bot.js:194-196 | the search finds nothing if and only if no position at or after the start holds a match |
| `OrderParser.FirstMatchSome` | bot.js:194-196 | the search returns the capture of the leftmost match |
| `OrderParser.ParseOrderSpec` | bot.js:194-202 | each category's quantity is 0 when the text has no match for its keyword; otherwise it is the number after the leftmost match |
| `OrderParser.RunValueDigits` | bot.js:199-201 | reading a digit run left to right gives the decimal value of that run |
| `OrderParser.QuantityAtStart` | bot.js:194-201 | a text that starts with the keyword, a space and a number yields that number |
| `OrderParser.ParseOrderText` | bot.js:194-202 | an order written as `keyword N` segments, each category at most once and in any order, parses back to those quantities, with 0 for the categories left out |
| `OrderParser.HelpExample` | bot.js:106 | the help text's example `half 2, chapati 3` parses to half 2, full 0, chapati 3 |
| `OrderParser.ParseExample` | bot.js:194-202 | `full 2 chapati 3` parses to half 0, full 2, chapati 3 |
| `JsText.ToLower` | bot.js:89 | lower-casing keeps the length, turns each upper-case letter A-Z into the matching lower-case letter, and leaves every other character unchanged |
| `JsText.Trim` | bot.js:89 | the result is the input with its leading and trailing whitespace removed, and nothing else |
| `JsText.SkipSpaces` | bot.js:194-196 | the index returned ends the maximal run of whitespace starting at the given index |
| `JsText.Split` | bot.js:113 | no part contains the separator, and joining the parts with it gives back the input |
| `JsText.SplitJoin` | bot.js:113 | splitting the join of separator-free parts gives back the parts |
| `JsText.NatToString` | bot.js:207 | the decimal rendering is non-empty and all digits, and starts with 0 only for zero |
| `JsText.DigitsRoundTrip` | bot.js:199-201 | reading back the decimal rendering of `n` gives `n` |
| `Orders.Lookup` | bot.js:183 | an entry is found if and only if the sender is a key, and the entry found is in the book |
| `Orders.PutToMap` | bot.js:205 | as a map, assigning an order under a sender updates exactly that key |
| `Orders.PutExisting` | bot.js:205 | assigning under an existing sender replaces that entry in place |
| `Orders.PutNew` | bot.js:205 | assigning under a new sender appends the entry at the end |
| `Orders.PutKeepsDistinct` | bot.js:205 | assigning keeps one entry per sender, and a new sender's name is appended to the key order |
| `Orders.RemoveToMap` | bot.js:186 | as a map, deleting a sender removes exactly that key |
| `Orders.RemoveExisting` | bot.js:186 | deleting a present sender removes its entry, and the other entries keep their order |
| `Orders.RemoveKeepsDistinct` | bot.js:186 | deleting keeps one entry per sender and leaves the sender absent |
| `Orders.ReAddMovesToEnd` | bot.js:186 | cancelling and then ordering again moves the sender to the end of the key order |
| `Orders.PutThenRemove` | bot.js:205 | deleting a sender that was just added gives back the original book |
| `Commands.SenderName` | bot.js:83 | the sender name is never empty, and is the display name whenever that is non-empty |
| `Commands.Normalize` | bot.js:89 | the result is the lower-cased text trimmed of whitespace, with no upper-case letter left |
| `Commands.ArgOf` | bot.js:113-114 | the argument is the second space-separated field, or empty when there is none |
| `Commands.PollCommandsByPrefix` | bot.js:112-154 | any text beginning with `!startpoll`, `!endpoll` or `!showpoll` is that command, whatever follows |
| `Commands.ClassifyBareCommand` | bot.js:112-156 | a bare poll command has an empty argument |
| `Commands.ClassifyPollCommand` | bot.js:112-156 | a poll command followed by a space and a name carries that name |
| `Commands.FreeTextClassified` | bot.js:92-193 | any text that does not start with `!`, the empty text of a media message included, reaches the order parser |
| `PollSpec.IgnoredMessages` | bot.js:80 | the bot's own messages and messages with no content change nothing and get no reply |
| `PollSpec.StartStepSpec` | bot.js:112-128 | an open poll is refused unchanged; otherwise the poll, named `default` when no name is given, restarts open and empty and becomes current, and no other poll changes |
| `PollSpec.StartTwiceRefused` | bot.js:116-119 | a second start of the same poll is refused and changes nothing |
| `PollSpec.EndStepSpec` | bot.js:131-151 | a missing or closed target changes nothing; otherwise only `active` is cleared, and the summary names the ended poll and lists its kept orders with their exact totals |
| `PollSpec.AfterEnd` | bot.js:131-210 | after a poll ends it is shown as not active, cannot be ended again, keeps its orders, and, when it was the current poll (by a bare or a named `!endpoll`), free text is ignored |
| `PollSpec.ShowReplySpec` | bot.js:154-177 | the three outcomes occur exactly in their cases: no active poll, an active poll with no orders yet, and an active poll with orders, which gets that poll's name, its listing and its exact totals |
| `PollSpec.ShowChangesNothing` | bot.js:154-177 | showing never changes the store |
| `PollSpec.IdleFreeText` | bot.js:193-204 | free text changes nothing and gets no reply when there is no open current poll or the parsed order is all zero |
| `PollSpec.RecordReplaces` | bot.js:193-208 | a non-zero order replaces the sender's whole entry in the current poll and nothing else changes; the sender's key is appended only when new |
| `PollSpec.ResubmitReplaces` | bot.js:205 | after two orders from one sender only the second is stored |
| `PollSpec.CancelStepSpec` | bot.js:180-190 | the two refusals occur exactly in their cases; otherwise exactly the sender's entry is deleted, the poll stays open, the rest keep their order, and every total drops by that order |
| `PollSpec.RecordThenCancel` | bot.js:180-205 | a first order followed by `!cancel` restores the store |
| `PollSpec.StepPreservesValid` | bot.js:78-211 | every message keeps the store valid: the current poll name is a stored poll, every book has one entry per sender, and no stored order is all zero |
| `PollSpec.DispatchPreservesValid` | bot.js:91-210 | every command branch keeps the store valid |
| `PollSpec.TransitionsPreserveValid` | bot.js:112-210 | start, end, cancel and record each keep the store valid |
| `PollSpec.StartByText` | bot.js:89-128 | the message `!startpoll <name>`, from anyone, starts that poll, for any name with no space, no upper-case letter and no trailing whitespace |
| `PollSpec.EndByText` | bot.js:89-151 | any message that reads `!endpoll` once lower-cased and trimmed, from anyone, ends the current poll |
| `PollSpec.OrderTextIsFreeText` | bot.js:89-202 | an order written in the help text's style (`half 2, chapati 3`, or with any other separator free of letters and digits) survives normalisation, is free text, and parses back to the order |
| `PollSpec.RecordByText` | bot.js:83-208 | a message whose lower-cased, trimmed text is free text parsing to a non-zero order (so `Half 2` too) stores exactly that order in the current poll under the sender's display name, or `User` when it has none |
| `PollSpec.OrderByText` | bot.js:78-208 | sending an order in the help text's style to an open poll stores exactly that order under the sender's display name, or `User` when it has none |
| `Replies.Message` | bot.js:142-146 | the text of an end or show summary ends with its listing followed by its totals block |

## Left out

- Connection, authentication, QR display and reconnect handling
  (bot.js:44-75) and the keep-alive HTTP server (bot.js:18-26) are I/O and
  are not modelled.
- Sending is asynchronous I/O. A reply is returned as a `Reply` value, and
  the chat it would be sent to is not modelled.
- Only the first message of each upsert batch is handled, as in the source.
  The model takes that one message.
- `toLowerCase` is modelled on ASCII letters only. Other Unicode case
  mappings are not modelled.
- CalculateTotals: the source adds doubles; totals beyond 2^53 (which would
  round) and from 10^21 on (which would print in exponent form) are not
  modelled, and the model's sums are exact naturals.
- `parseInt` is modelled on unbounded naturals. Digit runs too long for an
  exact double (beyond 2^53, or overflowing to Infinity) are not modelled.
- JavaScript orders integer-like object keys (a sender or poll named `12`)
  before the others. The model keeps plain insertion order.
- Keys inherited from `Object.prototype` (a poll named `constructor`, a
  sender named `__proto__`) are not modelled.
- A multi-message session is not stated as one lemma. It follows from
  composing the per-message lemmas, whose `Valid` invariant each step keeps.
- Replies.Message: its contract states only the summary structure. The
  other texts are the exact strings in its body, and the contract does not
  restate them.
