/** The keyword classifier (determineCategory in src/services/chatService.ts):
    a first-match rule table over four categories, tried in a fixed priority order,
    with `General` as the default. A category matches when any of its keywords
    occurs as a substring of the (already lower-cased) message. */
module Classifier {
  import opened Text

  datatype Category = RoomService | LocalRecommendations | HotelServices | Faq | General

  /** The tag the application stores on a reply and uses to pick an icon. */
  function Tag(c: Category): string {
    match c
    case RoomService => "room-service"
    case LocalRecommendations => "local-recommendations"
    case HotelServices => "hotel-services"
    case Faq => "faq"
    case General => "general"
  }

  /** Tags tell categories apart: distinct categories never share a tag. */
  lemma TagsDistinct(a: Category, b: Category)
    ensures Tag(a) == Tag(b) <==> a == b
  {
    if a != b {
      assert Tag(a)[0] != Tag(b)[0];
    }
  }

  /** The categories that have keywords, in the order they are tried. */
  const Priority: seq<Category> := [RoomService, LocalRecommendations, HotelServices, Faq]

  /** Position in the priority order; `General` comes after all the others. */
  function Rank(c: Category): (n: nat)
    ensures n <= |Priority|
    ensures n < |Priority| ==> Priority[n] == c
    ensures n == |Priority| <==> c == General
  {
    match c
    case RoomService => 0
    case LocalRecommendations => 1
    case HotelServices => 2
    case Faq => 3
    case General => 4
  }

  /** The keyword table; `General` has none. */
  function Keywords(c: Category): seq<string> {
    match c
    case RoomService =>
      ["food", "eat", "hungry", "breakfast", "lunch", "dinner", "menu", "order", "room service", "drink", "beverage"]
    case LocalRecommendations =>
      ["visit", "see", "tour", "attraction", "place", "go", "recommend", "nearby", "local", "restaurant", "shop", "mall"]
    case HotelServices =>
      ["service", "spa", "gym", "pool", "fitness", "business", "laundry", "housekeeping", "concierge", "towel", "clean"]
    case Faq =>
      ["check-out", "checkout", "check out", "wifi", "parking", "breakfast time", "check-in", "checkin", "check in", "airport", "shuttle"]
    case General => []
  }

  /** `words.some(w => message.includes(w))` */
  predicate MentionsAny(message: string, words: seq<string>) {
    exists i :: 0 <= i < |words| && Contains(message, words[i])
  }

  /** Some keyword of `c` occurs in the message. */
  predicate Matches(message: string, c: Category) {
    MentionsAny(message, Keywords(c))
  }

  /** The scan of the priority order from position `i` on: the first category there
      that matches, or `General` when none does. */
  function FirstMatchFrom(message: string, i: nat): (r: Category)
    requires i <= |Priority|
    ensures r == General || (i <= Rank(r) && Matches(message, r))
    ensures forall c :: i <= Rank(c) < Rank(r) ==> !Matches(message, c)
    decreases |Priority| - i
  {
    if i == |Priority| then General
    else if Matches(message, Priority[i]) then Priority[i]
    else FirstMatchFrom(message, i + 1)
  }

  /** determineCategory: the category returned matches the message (or is `General`),
      and no category ahead of it in the priority order matches. */
  function DetermineCategory(message: string): (r: Category)
    ensures r == General || Matches(message, r)
    ensures forall c :: Rank(c) < Rank(r) ==> !Matches(message, c)
  {
    FirstMatchFrom(message, 0)
  }

  /** The classification is exactly "the earliest matching category, else `General`":
      a category is returned if and only if it matches (or is the default) and every
      category before it does not. */
  lemma DetermineCategoryIff(message: string, c: Category)
    ensures DetermineCategory(message) == c <==>
      (c == General || Matches(message, c)) && forall d :: Rank(d) < Rank(c) ==> !Matches(message, d)
  {
  }

  /** Tie-break by priority: when two categories match, the later one is never chosen
      and the result is at or ahead of the earlier one. */
  lemma EarlierCategoryWins(message: string, a: Category, b: Category)
    requires Matches(message, a) && Matches(message, b) && Rank(a) < Rank(b)
    ensures DetermineCategory(message) != b
    ensures Rank(DetermineCategory(message)) <= Rank(a)
  {
  }

  /** Every keyword is non-empty, so the empty message matches nothing and is `General`. */
  lemma EmptyMessageIsGeneral()
    ensures DetermineCategory("") == General
  {
    forall c, i | 0 <= i < |Keywords(c)| ensures !Contains("", Keywords(c)[i]) {
      KeywordsNotEmpty(c);
      NotContainedInShorter("", Keywords(c)[i]);
    }
  }

  lemma KeywordsNotEmpty(c: Category)
    ensures forall i :: 0 <= i < |Keywords(c)| ==> Keywords(c)[i] != ""
  {
  }

  /** "breakfast time" is an FAQ keyword, but any message holding it also holds the
      room-service keyword "breakfast", so such messages are always room service. */
  lemma BreakfastTimeIsRoomService(message: string)
    requires Contains(message, "breakfast time")
    ensures Matches(message, Faq)
    ensures DetermineCategory(message) == RoomService
  {
    assert Keywords(Faq)[5] == "breakfast time";
    assert "breakfast time" == "" + "breakfast" + " time";
    ContainsInside("", "breakfast", " time");
    ContainsTransitive(message, "breakfast time", "breakfast");
    assert Keywords(RoomService)[3] == "breakfast";
  }

  /** Matching is substring containment, not word matching: "go" is found inside "good",
      so a message mentioning anything "good" matches local recommendations. */
  lemma GoMatchesInsideGood(message: string)
    requires Contains(message, "good")
    ensures Matches(message, LocalRecommendations)
    ensures DetermineCategory(message) != General
  {
    assert "good" == "" + "go" + "od";
    ContainsInside("", "go", "od");
    ContainsTransitive(message, "good", "go");
    assert Keywords(LocalRecommendations)[5] == "go";
  }
}
