# Hotel concierge chat: triage pipeline and transcript

This Dafny project models the core of a hotel "AI concierge" chat screen.

- **Triage pipeline** (`src/services/chatService.ts`).
  - A guest's message is lower-cased.
  - A keyword classifier picks one of five categories: room service, local recommendations, hotel services, FAQ or general. It tries four rule lists in a fixed order; the first list with a keyword occurring in the message wins, and general is the default.
  - A canned reply is generated by that category's handler. Each handler is again an ordered list of substring tests, and some replies are filled from the hotel's static tables (menu, attractions, services, FAQ).
  - The reply is wrapped as a bot message tagged with the category. A failure is caught and becomes a fixed apology tagged general.
- **Transcript** (`src/components/ChatInterface.tsx`).
  - The conversation starts as the welcome message.
  - Sending appends the user's message and a loading placeholder.
  - When the reply arrives, the placeholder is filtered out by id and the reply is appended. On failure, only the placeholder is removed.
  - Clearing returns to the welcome message.

Modules, one per file:

- `Text` (`text.dfy`): the string operations the source relies on, with their laws.
  - `includes`, as `Contains`;
  - ASCII `toLowerCase`;
  - `split(' ')`;
  - `join`;
  - number-to-string.
- `Wrappers` (`wrappers.dfy`): `Option` and `Result`.
- `KnowledgeBase` (`knowledge_base.dfy`): the static tables of `src/utils/mockData.ts`. They are written as constants (`Tables`), but every handler takes its table as a parameter.
- `Classifier` (`classifier.dfy`): `determineCategory`.
- `Responder` (`responder.dfy`): `generateResponse` and the five handlers.
- `ChatService` (`chat_service.dfy`): the message record and `processMessage`.
- `ChatInterface` (`chat_interface.dfy`): the `ChatSession` class. It holds the fields `messages` and `isProcessing`, and the methods `BeginSend`, `CompleteSuccess`, `CompleteFailure` and `Clear`.

Several lemmas show rules that the classifier's priority order makes unreachable. Each is stated as a property of the model.

- The local handler's "food"/"eat" tests never fire: such messages are room service.
- The FAQ handler's breakfast-time rule never fires.
- The general handler never sees "goodbye", because "go" is a local keyword.
- With the shipped services, "housekeeping" always selects the Housekeeping service reply, never the housekeeping-hours rule.

## Model

| member | source | states |
|---|---|---|
| Classifier.Rank | src/services/chatService.ts:73 | the position of each category in the order the rule lists are tried; general comes after all four |
| Classifier.FirstMatchFrom | src/services/chatService.ts:73-80 | scanning from position i returns a category at or after i that matches, or general; no category between i and the result matches |
| Classifier.DetermineCategory | src/services/chatService.ts:63-81 | the result matches the message (or is general), and no category earlier in the order matches |
| Classifier.DetermineCategoryIff | src/services/chatService.ts:73-80 | c is returned if and only if c matches (or is general) and every earlier category does not |
| Classifier.EarlierCategoryWins | src/services/chatService.ts:73-77 | when two categories match, the later one is never returned |
| Classifier.EmptyMessageIsGeneral | src/services/chatService.ts:65-80 | the empty message is general, because every keyword is non-empty |
| Classifier.TagsDistinct | src/services/chatService.ts:84-100 | distinct categories carry distinct tag strings, so the match on `Category` stands for the string switch at :85-100 |
| Classifier.KeywordsNotEmpty | src/services/chatService.ts:65-70 | no keyword is the empty string |
| Classifier.BreakfastTimeIsRoomService | src/services/chatService.ts:66-76 | a message with "breakfast time" matches the FAQ list but is classified room service, since "breakfast" is tried first |
| Classifier.GoMatchesInsideGood | src/services/chatService.ts:67-74 | matching is by substring: any message containing "good" matches local recommendations through "go" and is never general |
| Responder.FirstWhere | src/services/chatService.ts:156-160 | a for-of search that returns early: the first position satisfying the test, none before it satisfying it; or none at all |
| Responder.FirstWhereFinds | src/services/chatService.ts:156-160 | the position found is exactly the first one satisfying the test |
| Responder.RoomServiceReply | src/services/chatService.ts:104-123 | the menu is given iff menu/what/options occurs; the ordering help iff not that but "order"; the hours iff neither but time/hours; otherwise the blurb |
| Responder.MenuSectionsInOrder | src/services/chatService.ts:106-111 | the menu reply holds every section line, and each is followed by a blank line and then the next section |
| Responder.MenuItemShown | src/services/chatService.ts:106-111 | every item appears as `Name ($price)`, and the items of a section follow one another separated by ", "; the printed price reads back as the item's price |
| Responder.LocalReply | src/services/chatService.ts:126-151 | the restaurant list iff restaurant/food/eat occurs; the shopping list iff not that but shop/mall; otherwise the attractions list. The "shopping" test is subsumed by "shop" |
| Responder.AttractionsInOrder | src/services/chatService.ts:146-150 | the attractions reply lists every attraction, in table order, separated by blank lines |
| Responder.HotelServicesReply | src/services/chatService.ts:154-177 | when the message names some service, the reply is the reply about a service it names |
| Responder.NamedServiceWins | src/services/chatService.ts:156-160 | the reply is about the first service, in table order, whose lower-cased name occurs in the message |
| Responder.UnnamedServiceRules | src/services/chatService.ts:162-176 | with no service named: towel/extra first, then clean/housekeeping, then the list of all services |
| Responder.ServicesInOrder | src/services/chatService.ts:171-176 | the services reply lists every service, in table order, separated by blank lines |
| Responder.HousekeepingServiceShadowsRule | src/services/chatService.ts:156-169 | with the shipped table, a message with "housekeeping" gets the Housekeeping service reply, which differs from the housekeeping-hours reply |
| Responder.FirstShippedService | src/utils/mockData.ts:83-87 | the first shipped service, lower-cased, is "housekeeping", and its reply differs from the housekeeping-hours reply |
| Responder.QuestionMatches | src/services/chatService.ts:183-185 | for a question with a word longer than 3 characters, matching holds iff one such word occurs in the message: the whole-question test is subsumed |
| Responder.LongWordSubsumesWhole | src/services/chatService.ts:183-185 | a message containing the whole lower-cased question contains each of its words |
| Responder.FaqReply | src/services/chatService.ts:180-205 | when some entry matches the message, the reply is the answer of a matching entry |
| Responder.FaqFirstMatchWins | src/services/chatService.ts:182-188 | the answer of the first entry, in table order, whose question or one of its long words occurs in the message |
| Responder.UnmatchedFaqRules | src/services/chatService.ts:190-204 | with no entry matching: breakfast with time/when/hour first, then wifi/internet/connection, then the listing |
| Responder.FaqListingFirstThree | src/services/chatService.ts:199-204 | the listing shows exactly the first three entries (all of them, when there are fewer), in order, separated by blank lines |
| Responder.WhatMatchesFirstQuestion | src/services/chatService.ts:182-188 | when the first question's first word is "what", every message containing "what" gets the first answer |
| Responder.WhatMatchesCheckOut | src/services/chatService.ts:182-188 | with the shipped table, every FAQ message containing "what" gets the check-out answer |
| Responder.FirstShippedQuestion | src/utils/mockData.ts:115-118 | the first word of the first shipped question, lower-cased and split on spaces, is "what" |
| Responder.GeneralReply | src/services/chatService.ts:208-232 | the greeting iff hello/hi/hey occurs (the exact-equality tests add nothing); then thanks; then bye (which covers goodbye); then help/how/what can you; otherwise the fallback |
| Responder.EmptyMessageGetsFallback | src/services/chatService.ts:208-231 | the empty message is classified general and gets the fallback reply: none of the general handler's words occurs in it |
| Responder.GenerateResponse | src/services/chatService.ts:84-101 | when the FAQ answers are not empty, no reply of any handler is empty, so no reply looks like the placeholder's empty content |
| Responder.RoomServiceReplyNotEmpty | src/services/chatService.ts:104-123 | no room-service reply is empty |
| Responder.LocalReplyNotEmpty | src/services/chatService.ts:126-151 | no local-recommendations reply is empty |
| Responder.HotelServicesReplyNotEmpty | src/services/chatService.ts:154-177 | no hotel-services reply is empty |
| Responder.FaqReplyNotEmpty | src/services/chatService.ts:180-205 | no FAQ reply is empty when the answers are not |
| Responder.GeneralReplyNotEmpty | src/services/chatService.ts:208-232 | no general reply is empty |
| ChatService.Settle | src/services/chatService.ts:34-58 | the try/catch always yields a settled bot message: on success it carries the reply and its category; on failure the apology, tagged general |
| ChatService.ProcessMessage | src/services/chatService.ts:27-47 | a bot message, not loading, whose category is the classification of the lower-cased text and whose content is the handler's reply to it |
| ChatService.ProcessIgnoresCase | src/services/chatService.ts:29 | a message and its lower-cased form get the same reply |
| ChatService.AnyCaseKeywordMatches | src/services/chatService.ts:29 | a keyword written in any case still matches its category after lower-casing, so the message is classified there or earlier |
| ChatService.MenuRequestGetsMenu | src/services/chatService.ts:105-111 | a message mentioning "menu" is room service and gets the full menu |
| ChatService.MenuThroughPipeline | src/services/chatService.ts:27-47 | a message whose lower-cased text mentions "menu" comes back from processMessage tagged room service and carrying the full menu |
| ChatService.LocalNeverSeesFood | src/services/chatService.ts:127 | local recommendations never see "food" or "eat", so their restaurant list is given exactly for "restaurant" |
| ChatService.FaqNeverSeesBreakfast | src/services/chatService.ts:191 | FAQ messages never mention breakfast, so the breakfast-time rule never fires |
| ChatService.GeneralNeverSeesGoodbye | src/services/chatService.ts:217 | general messages never contain "good", so the "goodbye" test is dead |
| Text.Contains | src/services/chatService.ts:74 | a contained text is no longer than the text containing it; the empty text is contained in every text |
| Text.ContainsIffOccurs | src/services/chatService.ts:74 | `includes` holds iff the text occurs at some position |
| Text.ToLower | src/services/chatService.ts:29 | same length, each character lower-cased (ASCII A-Z only) |
| Text.ToLowerIdempotent | src/services/chatService.ts:29 | lower-casing leaves no upper-case letter and is idempotent |
| Text.ContainsLower | src/services/chatService.ts:29 | containment survives lower-casing both sides |
| Text.Split | src/services/chatService.ts:185 | at least one piece, and no piece holds the separator |
| Text.PieceOfSplit | src/services/chatService.ts:185 | every piece of a split occurs in the text that was split |
| Text.Join | src/services/chatService.ts:107-109 | the empty list joins to the empty text; where each element lands is stated by JoinPlacesEach and JoinSplit |
| Text.JoinSplit | src/services/chatService.ts:185 | joining the pieces of a split with the separator gives back the text |
| Text.SplitJoin | src/services/chatService.ts:185 | splitting a join of separator-free pieces gives back the pieces |
| Text.FirstWordLowered | src/services/chatService.ts:183-185 | the first piece of the split of a lower-cased question is its lower-cased first word |
| Text.JoinPlacesEach | src/services/chatService.ts:107-109 | a join holds every element at its offset, each one separator after the previous |
| Text.ListedInOrder | src/services/chatService.ts:106-111 | framed by a header and footer, a join shows element i followed by the separator and element i + 1 |
| Text.NatToString | src/services/chatService.ts:107 | decimal digits, with no leading zero except for 0 itself |
| Text.ParseRendered | src/services/chatService.ts:107 | reading back the printed price gives the price |
| ChatInterface.IdsAreDistinguished | src/components/ChatInterface.tsx:76-87 | placeholder ids carry the "loading-" prefix; user ids, the welcome id and generated reply ids never do, so a user id never equals a placeholder id |
| ChatInterface.UserMessage | src/components/ChatInterface.tsx:75-80 | a user message carrying the typed text, untagged and not loading, whose id carries no loading prefix and differs from the placeholder id of the same clock reading |
| ChatInterface.Placeholder | src/components/ChatInterface.tsx:86-92 | an empty, untagged bot message marked as loading, whose id carries the loading prefix and is not the welcome id |
| ChatInterface.WithoutId | src/components/ChatInterface.tsx:105 | the filter keeps exactly the messages with another id |
| ChatInterface.WithoutIdAppend | src/components/ChatInterface.tsx:105 | the filter works element by element and keeps the order of what it keeps |
| ChatInterface.WithoutIdAbsent | src/components/ChatInterface.tsx:112 | filtering an id nobody carries changes nothing |
| ChatInterface.WithoutIdDropsLast | src/components/ChatInterface.tsx:104-106 | when only the last message carries the id, exactly that message goes |
| ChatInterface.SendThenReply | src/components/ChatInterface.tsx:83-106 | a full send leaves the old transcript followed by the user message and the reply |
| ChatInterface.ChatSession.constructor | src/components/ChatInterface.tsx:25-26 | the transcript starts as the welcome message alone, with nothing awaited |
| ChatInterface.ChatSession.CanClear | src/components/ChatInterface.tsx:195 | in a valid state, clearing is enabled iff nothing is awaited and the transcript holds more than the welcome message |
| ChatInterface.ChatSession.BeginSend | src/components/ChatInterface.tsx:73-97 | appends the user message and then the placeholder, and marks a reply as awaited |
| ChatInterface.ChatSession.CompleteSuccess | src/components/ChatInterface.tsx:99-115 | filters out the placeholder's id and appends the reply; only the placeholder goes, and nothing is awaited afterwards |
| ChatInterface.ChatSession.CompleteFailure | src/components/ChatInterface.tsx:107-115 | filters out the placeholder's id and appends nothing; nothing is awaited afterwards |
| ChatInterface.ChatSession.DropPlaceholder | src/components/ChatInterface.tsx:104-112 | while a reply is awaited, filtering the placeholder's id removes only the last message and keeps the welcome message first |
| ChatInterface.ChatSession.Clear | src/components/ChatInterface.tsx:119-122 | the transcript becomes the welcome message alone |

## Left out

- The artificial reply delay (`setTimeout`), toasts and console logging. They have no effect on results.
- Message ids and timestamps. `Date.now()`, `Math.random()` and `new Date().toISOString()` become parameters: a clock reading, a generated id, a timestamp string. A generated id is assumed to hold only base-36 characters, which is what `generateId` produces.
- Full Unicode `toLowerCase`. Only ASCII letters A-Z are folded.
- The `JSX.Element` form of message content. The pipeline only produces text.
- Overlapping sends. The await in `handleSendMessage` is split into two sequential steps: `BeginSend`, then `CompleteSuccess` or `CompleteFailure`. `BeginSend` requires that no reply is awaited, because the input and quick-action buttons are disabled while processing (ChatInterface.tsx:158, ChatInput.tsx:26). `Clear` requires the clear button's enable rule (ChatInterface.tsx:195).
- ChatInterface.ChatSession.CompleteFailure: requires the placeholder to be the last message. The source filters by id wherever the placeholder is; this always holds when steps do not overlap.
- ChatInterface.ChatSession.CompleteSuccess: requires the placeholder to be the last message and the reply id to be a generated id. That always holds when steps do not overlap.
- A whole send is not written as one method doing `BeginSend`, then `processMessage`, then `CompleteSuccess`. Such a method exceeds the verification budget. `SendThenReply` states the same transcript outcome for any reply. Single lemmas about `processMessage`, such as `ProcessIgnoresCase` and `MenuThroughPipeline`, are stated.
- `processMessage` cannot fail in this model, because every step is a total function. Its catch branch is modelled by `Settle` on a failed attempt. The catch in `handleSendMessage` (ChatInterface.tsx:107-112) is modelled by `CompleteFailure`.
- Rendering, scrolling, the API-key modal and its `localStorage` check (ChatInterface.tsx:35-41), `ChatMessage.tsx`, `ChatInput.tsx`, `Header.tsx` and `Index.tsx`. These are presentation only.
- Prices are whole numbers (`nat`) and print in decimal, as every shipped price does. Fractional prices are not modelled.
- Responder.HotelServicesReply: its own contract says only that, when some service is named, the reply is about a named service. That the first named service in table order wins is stated by `NamedServiceWins`. What happens when none is named is stated by `UnnamedServiceRules`.
- Responder.FaqReply: its own contract says only that, when some entry matches, the reply is a matching entry's answer. That the first matching entry in table order wins is stated by `FaqFirstMatchWins`. What happens when none matches is stated by `UnmatchedFaqRules`.
- Text.Join: its own contract covers only the empty list. Stating the placement of the elements in the function's contract makes every proof that unfolds a join costlier, so that placement is stated by `JoinPlacesEach`, `JoinSplit` and `ListedInOrder` instead.
- No lemma proves that a specific literal message fails to contain a keyword. Such negative facts about concrete strings are costly to prove, so the classifier's behaviour on the quick-action texts is covered only where a positive match decides it, as in `MenuRequestGetsMenu`.
