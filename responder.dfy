/** The canned-response generator (generateResponse and its per-category handlers in
    src/services/chatService.ts). Each handler is an ordered list of substring tests on
    the lower-cased message; the first test that passes picks the reply, and a
    category-specific fallback is used when none does. Replies that quote the knowledge
    base render its lists in table order. */
module Responder {
  import opened Text
  import opened Wrappers
  import opened KnowledgeBase
  import opened Classifier

  /** `for (const x of xs) if (p(x)) return ...`: the position of the first element
      satisfying `p`, or `None` when there is none. */
  function FirstWhere<T>(xs: seq<T>, p: T -> bool): (r: Option<nat>)
    ensures r.Some? ==> r.value < |xs| && p(xs[r.value]) && forall j :: 0 <= j < r.value ==> !p(xs[j])
    ensures r.None? ==> forall j :: 0 <= j < |xs| ==> !p(xs[j])
  {
    if xs == [] then None
    else if p(xs[0]) then Some(0)
    else match FirstWhere(xs[1..], p)
      case None => None
      case Some(k) => Some(k + 1)
  }

  /** The first element satisfying `p` is the one found. */
  lemma FirstWhereFinds<T>(xs: seq<T>, p: T -> bool, i: nat)
    requires i < |xs| && p(xs[i])
    requires forall j :: 0 <= j < i ==> !p(xs[j])
    ensures FirstWhere(xs, p) == Some(i)
  {
    var r := FirstWhere(xs, p);
    assert r.Some?;
  }

  // ---------------------------------------------------------------------------
  // Room service
  // ---------------------------------------------------------------------------

  // Every fixed reply below is written as its first word (or two) followed by the rest of
  // the text: the same characters as one literal, but the short first piece lets the
  // verifier read off the first character that tells the replies of a handler apart.

  const OrderHelp: string :=
    "To place " + "an order, please specify the items you would like from our menu. "
    + "Your order will be delivered to your room within 30-45 minutes."

  const RoomServiceHours: string :=
    "Room " + "service is available 24 hours a day. Our full menu is available from 6:00 AM to 11:00 PM, "
    + "and a limited overnight menu is available from 11:00 PM to 6:00 AM."

  const RoomServiceBlurb: string :=
    "Our room " + "service offers a variety of dining options delivered directly to your room. "
    + "Would you like to see our menu, place an order, or have any other questions about our "
    + "food and beverage options?"

  /** `Name ($price)` */
  function ItemLine(item: MenuItem): string {
    item.name + " ($" + NatToString(item.price) + ")"
  }

  function ItemLines(items: seq<MenuItem>): seq<string> {
    seq(|items|, i requires 0 <= i < |items| => ItemLine(items[i]))
  }

  /** `Section: Name ($price), Name ($price), ...` */
  function SectionLine(section: MenuSection): string {
    section.category + ": " + Join(ItemLines(section.items), ", ")
  }

  function SectionLines(menu: seq<MenuSection>): seq<string> {
    seq(|menu|, i requires 0 <= i < |menu| => SectionLine(menu[i]))
  }

  const MenuHeader: string := "Here's " + "our room service menu:\n\n"
  const MenuFooter: string := "\n\nTo order, please let me know which items you'd like and any special requests."

  /** The whole menu, one section per paragraph. */
  function MenuReply(menu: seq<MenuSection>): string {
    MenuHeader + Join(SectionLines(menu), "\n\n") + MenuFooter
  }

  /** handleRoomServiceQuery: menu/what/options is tested first, then order, then
      time/hours; each reply is given exactly when its test is the first to pass. */
  function RoomServiceReply(message: string, menu: seq<MenuSection>): (r: string)
    ensures r == MenuReply(menu) <==>
      Contains(message, "menu") || Contains(message, "what") || Contains(message, "options")
    ensures r == OrderHelp <==>
      !(Contains(message, "menu") || Contains(message, "what") || Contains(message, "options"))
      && Contains(message, "order")
    ensures r == RoomServiceHours <==>
      !(Contains(message, "menu") || Contains(message, "what") || Contains(message, "options"))
      && !Contains(message, "order") && (Contains(message, "time") || Contains(message, "hours"))
    ensures r == RoomServiceBlurb <==>
      !(Contains(message, "menu") || Contains(message, "what") || Contains(message, "options"))
      && !Contains(message, "order") && !(Contains(message, "time") || Contains(message, "hours"))
  {
    assert MenuReply(menu)[0] == 'H' && OrderHelp[0] == 'T';
    assert RoomServiceHours[0] == 'R' && RoomServiceBlurb[0] == 'O';
    if Contains(message, "menu") || Contains(message, "what") || Contains(message, "options") then
      MenuReply(menu)
    else if Contains(message, "order") then
      OrderHelp
    else if Contains(message, "time") || Contains(message, "hours") then
      RoomServiceHours
    else
      RoomServiceBlurb
  }

  /** The menu reply shows section `i`, and right after it a blank line and section
      `i + 1`: every section appears, in table order, separated by blank lines. */
  lemma MenuSectionsInOrder(menu: seq<MenuSection>, i: nat)
    requires i < |menu|
    ensures Contains(MenuReply(menu), SectionLine(menu[i]))
    ensures i + 1 < |menu| ==> exists p ::
      OccursAt(MenuReply(menu), SectionLine(menu[i]), p) &&
      OccursAt(MenuReply(menu), "\n\n", p + |SectionLine(menu[i])|) &&
      OccursAt(MenuReply(menu), SectionLine(menu[i + 1]), p + |SectionLine(menu[i])| + 2)
  {
    ListedInOrder(MenuHeader, SectionLines(menu), "\n\n", MenuFooter, i);
    assert |"\n\n"| == 2;
  }

  /** Every item of every section is shown in the menu reply as its name followed by its
      price in dollars, and within a section the items follow one another in table
      order, separated by ", ". The price shown reads back as the item's price. */
  lemma MenuItemShown(menu: seq<MenuSection>, i: nat, j: nat)
    requires i < |menu| && j < |menu[i].items|
    ensures Contains(MenuReply(menu), menu[i].items[j].name + " ($" + NatToString(menu[i].items[j].price) + ")")
    ensures ParseNat(NatToString(menu[i].items[j].price)) == menu[i].items[j].price
    ensures j + 1 < |menu[i].items| ==> exists p ::
      OccursAt(SectionLine(menu[i]), ItemLine(menu[i].items[j]), p) &&
      OccursAt(SectionLine(menu[i]), ", ", p + |ItemLine(menu[i].items[j])|) &&
      OccursAt(SectionLine(menu[i]), ItemLine(menu[i].items[j + 1]), p + |ItemLine(menu[i].items[j])| + 2)
  {
    var section := menu[i];
    ListedInOrder(section.category + ": ", ItemLines(section.items), ", ", "", j);
    assert SectionLine(section) == section.category + ": " + Join(ItemLines(section.items), ", ") + "";
    assert |", "| == 2;
    MenuSectionsInOrder(menu, i);
    ContainsTransitive(MenuReply(menu), SectionLine(section), ItemLine(section.items[j]));
    ParseRendered(section.items[j].price);
  }

  // ---------------------------------------------------------------------------
  // Local recommendations
  // ---------------------------------------------------------------------------

  const RestaurantList: string :=
    "There " + "are several excellent restaurants nearby. Some popular options include:\n\n"
    + "1. Sky on 57 - Fine dining with panoramic views (0.3 km)\n"
    + "2. Satay by the Bay - Local street food in an outdoor setting (1.0 km)\n"
    + "3. Violet Oon - Authentic Singaporean cuisine (0.7 km)\n"
    + "4. Waku Ghin - Japanese-inspired tasting menu (0.4 km)\n\n"
    + "Would you like me to arrange a reservation for any of these restaurants?"

  const ShoppingList: string :=
    "For " + "shopping, I recommend:\n\n"
    + "1. The Shoppes at Marina Bay Sands - Luxury shopping mall (0.5 km)\n"
    + "2. Orchard Road - Singapore's premier shopping district (3.2 km by taxi)\n"
    + "3. Raffles City Shopping Centre - Mixed retail (1.8 km)\n"
    + "4. Bugis Street - Bargain shopping and street market (2.5 km)\n\n"
    + "Our concierge can provide you with directions to any of these locations."

  /** `Name (distance) - description` */
  function AttractionLine(a: Attraction): string {
    a.name + " (" + a.distance + ") - " + a.description
  }

  function AttractionLines(attractions: seq<Attraction>): seq<string> {
    seq(|attractions|, i requires 0 <= i < |attractions| => AttractionLine(attractions[i]))
  }

  const AttractionsHeader: string := "Here " + "are some popular attractions near our hotel:\n\n"
  const AttractionsFooter: string :=
    "\n\nWould you like more information about any of these places or assistance with tickets?"

  function AttractionsReply(attractions: seq<Attraction>): string {
    AttractionsHeader + Join(AttractionLines(attractions), "\n\n") + AttractionsFooter
  }

  /** handleLocalRecommendationsQuery: restaurant/food/eat first, then shop/mall/shopping,
      otherwise the attractions list; each reply exactly when its test is the first to pass. */
  function LocalReply(message: string, attractions: seq<Attraction>): (r: string)
    ensures r == RestaurantList <==>
      Contains(message, "restaurant") || Contains(message, "food") || Contains(message, "eat")
    ensures r == ShoppingList <==>
      !(Contains(message, "restaurant") || Contains(message, "food") || Contains(message, "eat"))
      && (Contains(message, "shop") || Contains(message, "mall"))
    ensures r == AttractionsReply(attractions) <==>
      !(Contains(message, "restaurant") || Contains(message, "food") || Contains(message, "eat"))
      && !(Contains(message, "shop") || Contains(message, "mall"))
  {
    assert RestaurantList[0] == 'T' && ShoppingList[0] == 'F' && AttractionsReply(attractions)[0] == 'H';
    assert "shopping" == "" + "shop" + "ping";
    ContainsPart(message, "", "shop", "ping");
    if Contains(message, "restaurant") || Contains(message, "food") || Contains(message, "eat") then
      RestaurantList
    else if Contains(message, "shop") || Contains(message, "mall") || Contains(message, "shopping") then
      ShoppingList
    else
      AttractionsReply(attractions)
  }

  /** The attractions reply shows every attraction, each followed by a blank line and the
      next one: all of them, in table order. */
  lemma AttractionsInOrder(attractions: seq<Attraction>, i: nat)
    requires i < |attractions|
    ensures Contains(AttractionsReply(attractions), AttractionLine(attractions[i]))
    ensures i + 1 < |attractions| ==> exists p ::
      OccursAt(AttractionsReply(attractions), AttractionLine(attractions[i]), p) &&
      OccursAt(AttractionsReply(attractions), "\n\n", p + |AttractionLine(attractions[i])|) &&
      OccursAt(AttractionsReply(attractions), AttractionLine(attractions[i + 1]),
               p + |AttractionLine(attractions[i])| + 2)
  {
    ListedInOrder(AttractionsHeader, AttractionLines(attractions), "\n\n", AttractionsFooter, i);
    assert |"\n\n"| == 2;
  }

  // ---------------------------------------------------------------------------
  // Hotel services
  // ---------------------------------------------------------------------------

  const TowelHelp: string :=
    "I'd be " + "happy to arrange for extra towels to be delivered to your room. "
    + "How many would you like, and when would you prefer them delivered?"

  const HousekeepingHelp: string :=
    "Housekeeping " + "service is provided daily between 8:00 AM and 8:00 PM. If you would like "
    + "to request housekeeping at a specific time or have special requests, please let me know."

  /** The reply about one named service. */
  function ServiceReply(s: Service): string {
    s.name + ": " + s.description + ". Would you like to schedule this service or learn more about it?"
  }

  /** `Name - description` */
  function ServiceLine(s: Service): string {
    s.name + " - " + s.description
  }

  function ServiceLines(services: seq<Service>): seq<string> {
    seq(|services|, i requires 0 <= i < |services| => ServiceLine(services[i]))
  }

  const ServicesHeader: string := "Here " + "are the services available at our hotel:\n\n"
  const ServicesFooter: string := "\n\nCan I help you schedule any of these services?"

  function ServicesReply(services: seq<Service>): string {
    ServicesHeader + Join(ServiceLines(services), "\n\n") + ServicesFooter
  }

  /** The message names the service: its lower-cased name occurs in the message. */
  predicate NamesService(message: string, s: Service) {
    Contains(message, ToLower(s.name))
  }

  /** handleHotelServicesQuery: the first service, in table order, whose name occurs
      in the message; then towel/extra; then clean/housekeeping; then the full list. */
  function HotelServicesReply(message: string, services: seq<Service>): (r: string)
    ensures (exists i :: 0 <= i < |services| && NamesService(message, services[i])) ==>
      exists i :: 0 <= i < |services| && NamesService(message, services[i]) && r == ServiceReply(services[i])
  {
    match FirstWhere(services, (s: Service) => NamesService(message, s))
    case Some(i) => ServiceReply(services[i])
    case None =>
      if Contains(message, "towel") || Contains(message, "extra") then TowelHelp
      else if Contains(message, "clean") || Contains(message, "housekeeping") then HousekeepingHelp
      else ServicesReply(services)
  }

  /** The first named service in table order wins, whatever else the message says. */
  lemma NamedServiceWins(message: string, services: seq<Service>, i: nat)
    requires i < |services| && NamesService(message, services[i])
    requires forall j :: 0 <= j < i ==> !NamesService(message, services[j])
    ensures HotelServicesReply(message, services) == ServiceReply(services[i])
  {
    FirstWhereFinds(services, (s: Service) => NamesService(message, s), i);
  }

  /** When no service is named, the fixed rules apply in order: towel/extra, then
      clean/housekeeping, then the list of all services. */
  lemma UnnamedServiceRules(message: string, services: seq<Service>)
    requires forall j :: 0 <= j < |services| ==> !NamesService(message, services[j])
    ensures Contains(message, "towel") || Contains(message, "extra")
      ==> HotelServicesReply(message, services) == TowelHelp
    ensures !(Contains(message, "towel") || Contains(message, "extra"))
      && (Contains(message, "clean") || Contains(message, "housekeeping"))
      ==> HotelServicesReply(message, services) == HousekeepingHelp
    ensures !(Contains(message, "towel") || Contains(message, "extra"))
      && !(Contains(message, "clean") || Contains(message, "housekeeping"))
      ==> HotelServicesReply(message, services) == ServicesReply(services)
  {
    assert FirstWhere(services, (s: Service) => NamesService(message, s)).None?;
  }

  /** With the shipped services, "Housekeeping" is the first service, so a message
      mentioning housekeeping gets that service's reply, never the housekeeping-hours rule. */
  lemma HousekeepingServiceShadowsRule(message: string)
    requires Contains(message, "housekeeping")
    ensures HotelServicesReply(message, Services) == ServiceReply(Services[0])
    ensures HotelServicesReply(message, Services) != HousekeepingHelp
  {
    FirstShippedService();
    NamedServiceWins(message, Services, 0);
  }

  /** The first shipped service is named by "housekeeping", and its reply differs from
      the housekeeping-hours reply. */
  lemma FirstShippedService()
    ensures ToLower(Services[0].name) == "housekeeping"
    ensures ServiceReply(Services[0]) != HousekeepingHelp
  {
    ShippedServiceName();
    LowerHousekeeping(Services[0].name);
    HousekeepingReplyDiffers(Services[0]);
  }

  lemma ShippedServiceName()
    ensures Services[0].name == "Housekeeping"
  {
  }

  lemma LowerHousekeeping(name: string)
    requires name == "Housekeeping"
    ensures ToLower(name) == "housekeeping"
  {
    HousekeepingPieces(name);
    LowerCapitalised('H', "ousekeeping");
  }

  lemma HousekeepingPieces(name: string)
    requires name == "Housekeeping"
    ensures name == ['H'] + "ousekeeping" && IsLower("ousekeeping")
    ensures [LowerChar('H')] + "ousekeeping" == "housekeeping"
  {
  }

  lemma HousekeepingReplyDiffers(s: Service)
    requires s.name == "Housekeeping"
    ensures ServiceReply(s) != HousekeepingHelp
  {
    assert ServiceReply(s)[12] == ':';
    assert HousekeepingHelp[12] == ' ';
  }

  /** The services list shows every service, each followed by a blank line and the next
      one: all of them, in table order. */
  lemma ServicesInOrder(services: seq<Service>, i: nat)
    requires i < |services|
    ensures Contains(ServicesReply(services), ServiceLine(services[i]))
    ensures i + 1 < |services| ==> exists p ::
      OccursAt(ServicesReply(services), ServiceLine(services[i]), p) &&
      OccursAt(ServicesReply(services), "\n\n", p + |ServiceLine(services[i])|) &&
      OccursAt(ServicesReply(services), ServiceLine(services[i + 1]), p + |ServiceLine(services[i])| + 2)
  {
    ListedInOrder(ServicesHeader, ServiceLines(services), "\n\n", ServicesFooter, i);
    assert |"\n\n"| == 2;
  }

  // ---------------------------------------------------------------------------
  // Frequently asked questions
  // ---------------------------------------------------------------------------

  const BreakfastHours: string :=
    "Breakfast " + "is served in our main restaurant, Azure Dining, from 6:30 AM to 10:30 AM on "
    + "weekdays and until 11:00 AM on weekends."

  const WifiHelp: string :=
    "Complimentary " + "Wi-Fi is available throughout the hotel. Connect to 'Grand Azure Wi-Fi' and "
    + "enter your room number and last name to access."

  /** An FAQ entry matches when its lower-cased question occurs in the message, or when
      one of the question's space-separated words longer than 3 characters does.
      When the question has such a word, the whole-question test adds nothing: a message
      containing the whole question contains each of its words. */
  predicate QuestionMatches(message: string, question: string): (r: bool)
    ensures HasLongWord(ToLower(question)) ==> (r <==> MentionsLongWord(message, ToLower(question)))
  {
    var q := ToLower(question);
    LongWordSubsumesWhole(message, q);
    Contains(message, q) || MentionsLongWord(message, q)
  }

  /** Some space-separated word of `q` longer than 3 characters occurs in the message. */
  predicate MentionsLongWord(message: string, q: string) {
    exists w :: w in Split(q, ' ') && Contains(message, w) && |w| > 3
  }

  /** Some space-separated word of `q` is longer than 3 characters. */
  predicate HasLongWord(q: string) {
    exists w :: w in Split(q, ' ') && |w| > 3
  }

  lemma LongWordSubsumesWhole(message: string, q: string)
    ensures HasLongWord(q) && Contains(message, q) ==> MentionsLongWord(message, q)
  {
    if HasLongWord(q) && Contains(message, q) {
      var w :| w in Split(q, ' ') && |w| > 3;
      PieceOfSplit(q, ' ', w);
      ContainsTransitive(message, q, w);
    }
  }

  /** `Q: question` and `A: answer` on two lines. */
  function FaqLine(e: FaqEntry): string {
    "Q: " + e.question + "\nA: " + e.answer
  }

  function Min(a: nat, b: nat): nat {
    if a < b then a else b
  }

  /** The lines of the first three entries (fewer when there are fewer). */
  function FaqLines(faq: seq<FaqEntry>): seq<string> {
    seq(Min(3, |faq|), i requires 0 <= i < Min(3, |faq|) => FaqLine(faq[i]))
  }

  const FaqHeader: string := "Here " + "are some frequently asked questions:\n\n"
  const FaqFooter: string := "\n\nDo you have any other questions about your stay?"

  function FaqListReply(faq: seq<FaqEntry>): string {
    FaqHeader + Join(FaqLines(faq), "\n\n") + FaqFooter
  }

  /** handleFaqQuery: the answer of the first matching entry; then breakfast with
      time/when/hour; then wifi/internet/connection; then the first three entries. */
  function FaqReply(message: string, faq: seq<FaqEntry>): (r: string)
    ensures (exists i :: 0 <= i < |faq| && QuestionMatches(message, faq[i].question)) ==>
      exists i :: 0 <= i < |faq| && QuestionMatches(message, faq[i].question) && r == faq[i].answer
  {
    match FirstWhere(faq, (e: FaqEntry) => QuestionMatches(message, e.question))
    case Some(i) => faq[i].answer
    case None => UnmatchedFaqReply(message, faq)
  }

  /** The rules tried when no entry matches. */
  function UnmatchedFaqReply(message: string, faq: seq<FaqEntry>): string {
    if AsksBreakfastTime(message) then BreakfastHours
    else if AsksWifi(message) then WifiHelp
    else FaqListReply(faq)
  }

  predicate AsksBreakfastTime(message: string) {
    Contains(message, "breakfast")
    && (Contains(message, "time") || Contains(message, "when") || Contains(message, "hour"))
  }

  predicate AsksWifi(message: string) {
    Contains(message, "wifi") || Contains(message, "internet") || Contains(message, "connection")
  }

  /** The answer of the first matching entry in table order is returned. */
  lemma FaqFirstMatchWins(message: string, faq: seq<FaqEntry>, i: nat)
    requires i < |faq| && QuestionMatches(message, faq[i].question)
    requires forall j :: 0 <= j < i ==> !QuestionMatches(message, faq[j].question)
    ensures FaqReply(message, faq) == faq[i].answer
  {
    FirstWhereFinds(faq, (e: FaqEntry) => QuestionMatches(message, e.question), i);
  }

  /** When no entry matches, the fixed rules apply in order: breakfast time, then wifi,
      then the listing. */
  lemma UnmatchedFaqRules(message: string, faq: seq<FaqEntry>)
    requires forall j :: 0 <= j < |faq| ==> !QuestionMatches(message, faq[j].question)
    ensures AsksBreakfastTime(message) ==> FaqReply(message, faq) == BreakfastHours
    ensures !AsksBreakfastTime(message) && AsksWifi(message) ==> FaqReply(message, faq) == WifiHelp
    ensures !AsksBreakfastTime(message) && !AsksWifi(message) ==> FaqReply(message, faq) == FaqListReply(faq)
  {
    assert FirstWhere(faq, (e: FaqEntry) => QuestionMatches(message, e.question)).None?;
  }

  /** The fallback listing shows exactly the first three entries (all, when fewer):
      it is unchanged by dropping later entries, and shows each of the first three in
      table order. */
  lemma FaqListingFirstThree(faq: seq<FaqEntry>, i: nat)
    requires i < Min(3, |faq|)
    ensures FaqListReply(faq) == FaqListReply(faq[..Min(3, |faq|)])
    ensures Contains(FaqListReply(faq), FaqLine(faq[i]))
    ensures i + 1 < Min(3, |faq|) ==> exists p ::
      OccursAt(FaqListReply(faq), FaqLine(faq[i]), p) &&
      OccursAt(FaqListReply(faq), "\n\n", p + |FaqLine(faq[i])|) &&
      OccursAt(FaqListReply(faq), FaqLine(faq[i + 1]), p + |FaqLine(faq[i])| + 2)
  {
    assert FaqLines(faq) == FaqLines(faq[..Min(3, |faq|)]);
    ListedInOrder(FaqHeader, FaqLines(faq), "\n\n", FaqFooter, i);
    assert |"\n\n"| == 2;
  }

  /** The word rule is broad: when the first question starts with the word "what", any
      message containing "what" that reaches the FAQ handler gets that question's answer. */
  lemma WhatMatchesFirstQuestion(message: string, faq: seq<FaqEntry>)
    requires |faq| > 0 && Split(ToLower(faq[0].question), ' ')[0] == "what"
    requires Contains(message, "what")
    ensures FaqReply(message, faq) == faq[0].answer
  {
    var words := Split(ToLower(faq[0].question), ' ');
    assert words[0] in words && |words[0]| > 3;
    assert QuestionMatches(message, faq[0].question);
    FaqFirstMatchWins(message, faq, 0);
  }

  /** With the shipped table, whose first question is "What time is check-out?", every
      FAQ message mentioning "what" gets the check-out answer, even one asking about wifi. */
  lemma WhatMatchesCheckOut(message: string)
    requires Contains(message, "what")
    ensures FaqReply(message, FaqEntries) == FaqEntries[0].answer
  {
    FirstShippedQuestion();
    WhatMatchesFirstQuestion(message, FaqEntries);
  }

  /** The first word of the first shipped question, lower-cased, is "what". */
  lemma FirstShippedQuestion()
    ensures Split(ToLower(FaqEntries[0].question), ' ')[0] == "what"
  {
    ShippedQuestion();
    FirstWordLowered("What", " time is check-out?", ' ');
    LowerWhat();
  }

  lemma LowerWhat()
    ensures ToLower("What") == "what"
  {
    var s := "What";
    assert s[0] == 'W';
  }

  lemma ShippedQuestion()
    ensures FaqEntries[0].question == "What" + " time is check-out?"
  {
  }

  // ---------------------------------------------------------------------------
  // General
  // ---------------------------------------------------------------------------

  /** The greeting test, without the exact-equality tests it subsumes. */
  predicate Greets(message: string) {
    Contains(message, "hello") || Contains(message, "hi") || Contains(message, "hey")
  }

  predicate AsksHelp(message: string) {
    Contains(message, "help") || Contains(message, "how") || Contains(message, "what can you")
  }

  function Greeting(hotel: Hotel): string {
    "Hello! " + "Welcome to " + hotel.name + ". How can I assist you today? You can ask about room "
    + "service, local attractions, hotel amenities, or any other questions about your stay."
  }

  const YoureWelcome: string :=
    "You're " + "welcome! It's my pleasure to assist you. Is there anything else I can help you with?"

  const Farewell: string :=
    "Thank " + "you for chatting with me. Enjoy your stay at Grand Azure Hotel & Spa! If you need "
    + "anything else, I'm available 24/7."

  const HelpList: string :=
    "I can " + "help you with various aspects of your stay, including:\n\n"
    + "- Ordering room service\n"
    + "- Providing information about hotel amenities\n"
    + "- Recommending local attractions and restaurants\n"
    + "- Answering questions about hotel policies\n"
    + "- Scheduling services like housekeeping or spa appointments\n\n"
    + "Just let me know what you need assistance with!"

  const GeneralFallback: string :=
    "I'm here " + "to help make your stay at Grand Azure Hotel & Spa as comfortable as possible. "
    + "Can you provide more details about what you're looking for? You can ask about room "
    + "service, local recommendations, hotel amenities, or any other services."

  /** handleGeneralQuery: greeting, then thanks, then goodbye, then help, then the
      fallback. The exact-equality tests for "hi" and "hello" add nothing to the
      substring tests: the greeting is given exactly when hello/hi/hey occurs. */
  function GeneralReply(message: string, hotel: Hotel): (r: string)
    ensures r == Greeting(hotel) <==> Greets(message)
    ensures r == YoureWelcome <==> !Greets(message) && Contains(message, "thank")
    ensures r == Farewell <==> !Greets(message) && !Contains(message, "thank") && Contains(message, "bye")
    ensures r == HelpList <==>
      !Greets(message) && !Contains(message, "thank") && !Contains(message, "bye") && AsksHelp(message)
    ensures r == GeneralFallback <==>
      !Greets(message) && !Contains(message, "thank") && !Contains(message, "bye") && !AsksHelp(message)
  {
    assert Greeting(hotel)[0] == 'H' && YoureWelcome[0] == 'Y' && Farewell[0] == 'T';
    assert HelpList[0] == 'I' && HelpList[1] == ' ' && GeneralFallback[1] == '\'';
    assert "goodbye" == "good" + "bye" + "";
    ContainsPart(message, "good", "bye", "");
    ContainsSelf(message);
    if Contains(message, "hello") || Contains(message, "hi") || Contains(message, "hey")
      || message == "hi" || message == "hello" then
      Greeting(hotel)
    else if Contains(message, "thank") then
      YoureWelcome
    else if Contains(message, "goodbye") || Contains(message, "bye") then
      Farewell
    else if Contains(message, "help") || Contains(message, "how") || Contains(message, "what can you") then
      HelpList
    else
      GeneralFallback
  }

  /** The empty message is general and gets the fallback: no keyword and no test word
      occurs in it. */
  lemma EmptyMessageGetsFallback(hotel: Hotel)
    ensures DetermineCategory("") == General
    ensures GeneralReply("", hotel) == GeneralFallback
  {
    EmptyMessageIsGeneral();
  }

  // ---------------------------------------------------------------------------
  // Dispatch
  // ---------------------------------------------------------------------------

  /** generateResponse: one handler per category. No reply is empty, so no reply looks
      like the empty content of the loading placeholder (provided the FAQ answers are
      not empty). */
  function GenerateResponse(message: string, category: Category, kb: KnowledgeBase): (r: string)
    ensures (forall k :: 0 <= k < |kb.faq| ==> kb.faq[k].answer != "") ==> r != ""
  {
    match category
    case RoomService => RoomServiceReplyNotEmpty(message, kb.menu); RoomServiceReply(message, kb.menu)
    case LocalRecommendations => LocalReplyNotEmpty(message, kb.attractions); LocalReply(message, kb.attractions)
    case HotelServices => HotelServicesReplyNotEmpty(message, kb.services); HotelServicesReply(message, kb.services)
    case Faq => FaqReplyNotEmpty(message, kb.faq); FaqReply(message, kb.faq)
    case General => GeneralReplyNotEmpty(message, kb.hotel); GeneralReply(message, kb.hotel)
  }

  lemma RoomServiceReplyNotEmpty(message: string, menu: seq<MenuSection>)
    ensures RoomServiceReply(message, menu) != ""
  {
    assert MenuReply(menu)[0] == 'H';
    assert OrderHelp[0] == 'T';
    assert RoomServiceHours[0] == 'R';
    assert RoomServiceBlurb[0] == 'O';
  }

  lemma LocalReplyNotEmpty(message: string, attractions: seq<Attraction>)
    ensures LocalReply(message, attractions) != ""
  {
    assert RestaurantList[0] == 'T';
    assert ShoppingList[0] == 'F';
    assert AttractionsReply(attractions)[0] == 'H';
  }

  lemma HotelServicesReplyNotEmpty(message: string, services: seq<Service>)
    ensures HotelServicesReply(message, services) != ""
  {
    assert TowelHelp[0] == 'I';
    assert HousekeepingHelp[0] == 'H';
    assert ServicesReply(services)[0] == 'H';
  }

  lemma FaqReplyNotEmpty(message: string, faq: seq<FaqEntry>)
    ensures (forall k :: 0 <= k < |faq| ==> faq[k].answer != "") ==> FaqReply(message, faq) != ""
  {
    UnmatchedFaqReplyNotEmpty(message, faq);
  }

  lemma UnmatchedFaqReplyNotEmpty(message: string, faq: seq<FaqEntry>)
    ensures UnmatchedFaqReply(message, faq) != ""
  {
    assert BreakfastHours[0] == 'B';
    assert WifiHelp[0] == 'C';
    assert FaqListReply(faq)[0] == 'H';
  }

  lemma GeneralReplyNotEmpty(message: string, hotel: Hotel)
    ensures GeneralReply(message, hotel) != ""
  {
  }
}
