/** The message record and processMessage (src/services/chatService.ts): the user's
    text is lower-cased, classified, answered by the category's handler, and the reply
    is wrapped as a bot message tagged with the category. Any failure is caught and
    turned into a fixed apology tagged `General`, so no error escapes. */
module ChatService {
  import opened Text
  import opened Wrappers
  import opened KnowledgeBase
  import opened Classifier
  import opened Responder

  datatype Sender = User | Bot

  /** A transcript entry. `category` is absent on user messages and on the loading
      placeholder; `content` is always text in this model. */
  datatype Message = Message(
    id: string,
    sender: Sender,
    content: string,
    timestamp: string,
    category: Option<Category>,
    isLoading: bool)

  /** The reply used when processing fails (written in pieces like the replies in
      Responder, so its first character is read off cheaply). */
  const Apology: string :=
    "I apologize, " + "but I'm having trouble processing your request right now. Please try "
    + "again or contact the front desk for immediate assistance."

  /** The opening message of every conversation (welcomeMessage in src/utils/mockData.ts). */
  function WelcomeMessage(timestamp: string): Message {
    Message(WelcomeId, Bot, WelcomeText, timestamp, Some(General), false)
  }

  /** The try/catch of processMessage: `attempt` is what classification and reply
      generation produced, or the error they raised. Either way the caller receives a
      settled bot message with the given id and timestamp: the reply tagged with its
      category, or the apology tagged `General`. */
  function Settle(id: string, timestamp: string, attempt: Result<(Category, string), string>): (m: Message)
    ensures m.sender == Bot && !m.isLoading && m.category.Some?
    ensures m.id == id && m.timestamp == timestamp
    ensures attempt.Success? ==> m.category == Some(attempt.value.0) && m.content == attempt.value.1
    ensures attempt.Failure? ==> m.category == Some(General) && m.content == Apology
  {
    match attempt
    case Success((category, reply)) => Message(id, Bot, reply, timestamp, Some(category), false)
    case Failure(_) => Message(id, Bot, Apology, timestamp, Some(General), false)
  }

  /** processMessage: the reply to `message` classifies and answers the lower-cased
      text. `id` and `timestamp` stand for the generated id and the clock reading. */
  function ProcessMessage(message: string, id: string, timestamp: string, kb: KnowledgeBase): (m: Message)
    ensures m.sender == Bot && !m.isLoading && m.id == id && m.timestamp == timestamp
    ensures m.category == Some(DetermineCategory(ToLower(message)))
    ensures m.content == GenerateResponse(ToLower(message), DetermineCategory(ToLower(message)), kb)
  {
    var lower := ToLower(message);
    var category := DetermineCategory(lower);
    Settle(id, timestamp, Success((category, GenerateResponse(lower, category, kb))))
  }

  /** Case never matters: a message and its lower-cased form get the same reply. */
  lemma ProcessIgnoresCase(message: string, id: string, timestamp: string, kb: KnowledgeBase)
    ensures ProcessMessage(message, id, timestamp, kb) == ProcessMessage(ToLower(message), id, timestamp, kb)
  {
    ToLowerIdempotent(message);
  }

  /** A keyword written in any mix of cases still counts: the message is classified as
      that keyword's category or an earlier one. */
  lemma AnyCaseKeywordMatches(message: string, w: string, c: Category, i: nat)
    requires i < |Keywords(c)| && ToLower(w) == Keywords(c)[i] && Contains(message, w)
    ensures Matches(ToLower(message), c)
    ensures Rank(DetermineCategory(ToLower(message))) <= Rank(c)
  {
    ContainsLower(message, w);
  }

  /** A message that mentions the menu is room service and gets the full menu. With
      ProcessIgnoresCase and AnyCaseKeywordMatches this covers "MENU", "Menu", ... */
  lemma MenuRequestGetsMenu(message: string, menu: seq<MenuSection>)
    requires Contains(message, "menu")
    ensures DetermineCategory(message) == RoomService
    ensures RoomServiceReply(message, menu) == MenuReply(menu)
  {
    assert Keywords(RoomService)[6] == "menu";
  }

  /** The same scenario through processMessage itself: a message mentioning the menu,
      in any case, comes back tagged room service and carrying the full menu. */
  lemma MenuThroughPipeline(message: string, id: string, timestamp: string, kb: KnowledgeBase)
    requires Contains(ToLower(message), "menu")
    ensures ProcessMessage(message, id, timestamp, kb).category == Some(RoomService)
    ensures ProcessMessage(message, id, timestamp, kb).content == MenuReply(kb.menu)
  {
    MenuRequestGetsMenu(ToLower(message), kb.menu);
  }

  /** The local handler's "food" and "eat" tests never fire inside the pipeline: such
      messages are room service. A local-recommendations reply is the restaurant list
      exactly when the message mentions "restaurant". */
  lemma LocalNeverSeesFood(message: string, attractions: seq<Attraction>)
    requires DetermineCategory(message) == LocalRecommendations
    ensures !Contains(message, "food") && !Contains(message, "eat")
    ensures LocalReply(message, attractions) == RestaurantList <==> Contains(message, "restaurant")
  {
    assert Keywords(RoomService)[0] == "food" && Keywords(RoomService)[1] == "eat";
    assert Rank(RoomService) < Rank(LocalRecommendations);
  }

  /** The FAQ handler's breakfast-time rule never fires inside the pipeline: a message
      mentioning breakfast is room service. */
  lemma FaqNeverSeesBreakfast(message: string)
    requires DetermineCategory(message) == Faq
    ensures !Contains(message, "breakfast")
    ensures !AsksBreakfastTime(message)
  {
    assert Keywords(RoomService)[3] == "breakfast";
    assert Rank(RoomService) < Rank(Faq);
  }

  /** The general handler never sees "good" (it holds the local keyword "go"), so its
      "goodbye" test is dead and the farewell is given exactly for "bye". */
  lemma GeneralNeverSeesGoodbye(message: string)
    requires DetermineCategory(message) == General
    ensures !Contains(message, "good")
  {
    if Contains(message, "good") {
      GoMatchesInsideGood(message);
    }
  }
}
