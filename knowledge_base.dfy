/** The hotel's static, read-only reference data: profile, room-service menu,
    nearby attractions, in-house services and frequently asked questions.
    The concierge pipeline receives a `KnowledgeBase` value; `Tables` is the data
    the application ships with (src/utils/mockData.ts). */
module KnowledgeBase {

  datatype Hotel = Hotel(
    name: string,
    location: string,
    phone: string,
    email: string,
    checkInTime: string,
    checkOutTime: string)

  /** A menu item; prices are whole dollars. */
  datatype MenuItem = MenuItem(name: string, description: string, price: nat)

  /** A menu section ("Breakfast", "Dinner", ...) and its items, in display order. */
  datatype MenuSection = MenuSection(category: string, items: seq<MenuItem>)

  datatype Attraction = Attraction(name: string, description: string, distance: string, image: string)

  datatype Service = Service(name: string, description: string)

  datatype FaqEntry = FaqEntry(question: string, answer: string)

  /** Everything the responder may quote. Order matters everywhere: lists are rendered
      and searched in this order. */
  datatype KnowledgeBase = KnowledgeBase(
    hotel: Hotel,
    menu: seq<MenuSection>,
    attractions: seq<Attraction>,
    services: seq<Service>,
    faq: seq<FaqEntry>)

  const GrandAzure: Hotel := Hotel(
    "Grand Azure Hotel & Spa",
    "Marina Bay, Singapore",
    "+65 1234 5678",
    "concierge@grandazure.com",
    "3:00 PM",
    "12:00 PM")

  const Menu: seq<MenuSection> := [
    MenuSection("Breakfast", [
      MenuItem("Continental Breakfast", "Assorted pastries, fresh fruit, yogurt", 24),
      MenuItem("American Breakfast", "Eggs, bacon, toast, hash browns", 28),
      MenuItem("Healthy Start", "Egg white omelet, avocado toast, fresh fruit", 26)]),
    MenuSection("All-Day Dining", [
      MenuItem("Club Sandwich", "Turkey, bacon, lettuce, tomato", 22),
      MenuItem("Wagyu Burger", "Premium beef, brioche bun, truffle fries", 32),
      MenuItem("Caesar Salad", "Romaine, parmesan, croutons", 18)]),
    MenuSection("Dinner", [
      MenuItem("Grilled Salmon", "Wild-caught salmon, seasonal vegetables", 38),
      MenuItem("Filet Mignon", "8oz beef tenderloin, truffle mashed potatoes", 52),
      MenuItem("Mushroom Risotto", "Arborio rice, wild mushrooms, parmesan", 30)]),
    MenuSection("Beverages", [
      MenuItem("Fresh Juice", "Orange, apple, or grapefruit", 10),
      MenuItem("Coffee", "Freshly brewed or espresso", 8),
      MenuItem("Wine by the Glass", "Selection of red or white", 15)])]

  const Attractions: seq<Attraction> := [
    Attraction("Marina Bay Sands",
      "Iconic integrated resort with shopping, dining, and observation deck", "0.5 km", "marina-bay-sands.jpg"),
    Attraction("Gardens by the Bay",
      "Nature park with Supertree Grove and Cloud Forest", "1.2 km", "gardens-by-the-bay.jpg"),
    Attraction("ArtScience Museum",
      "Museum featuring innovative exhibitions at the intersection of art and science", "0.8 km", "artscience-museum.jpg"),
    Attraction("Merlion Park",
      "Iconic statue and landmark of Singapore", "1.5 km", "merlion-park.jpg"),
    Attraction("Singapore Flyer",
      "Giant observation wheel offering panoramic views of the city", "1.8 km", "singapore-flyer.jpg")]

  const Services: seq<Service> := [
    Service("Housekeeping", "Daily room cleaning service available from 8:00 AM to 8:00 PM"),
    Service("Concierge", "24-hour assistance for reservations, tickets, and recommendations"),
    Service("Spa", "Full-service spa open from 10:00 AM to 9:00 PM"),
    Service("Fitness Center", "State-of-the-art gym open 24 hours"),
    Service("Swimming Pool", "Rooftop infinity pool open from 7:00 AM to 10:00 PM"),
    Service("Business Center", "Available 24 hours with printing and computer services"),
    Service("Laundry", "Same-day service available if requested before 9:00 AM")]

  const FaqEntries: seq<FaqEntry> := [
    FaqEntry("What time is check-out?",
      "Check-out time is 12:00 PM. Late check-out may be available for an additional fee, subject to availability."),
    FaqEntry("Where is breakfast served?",
      "Breakfast is served in our main restaurant, Azure Dining, from 6:30 AM to 10:30 AM on weekdays and until 11:00 AM on weekends."),
    FaqEntry("How do I connect to Wi-Fi?",
      "Complimentary Wi-Fi is available throughout the hotel. Connect to 'Grand Azure Wi-Fi' and enter your room number and last name to access."),
    FaqEntry("Is there parking available?",
      "Yes, valet parking is available for $45 per day with in-and-out privileges. Self-parking is also available in the adjacent garage for $35 per day."),
    FaqEntry("Can I request a late check-out?",
      "Late check-out may be arranged based on availability. Please contact the front desk at least 24 hours before your departure to inquire."),
    FaqEntry("Do you offer airport transportation?",
      "Yes, we offer airport transfers for $60 one-way. Please contact the concierge to arrange at least 24 hours in advance.")]

  /** The knowledge base the application ships with. */
  const Tables: KnowledgeBase := KnowledgeBase(GrandAzure, Menu, Attractions, Services, FaqEntries)

  /** Text of the conversation's opening message. */
  const WelcomeText: string :=
    "Welcome to Grand Azure Hotel & Spa! I'm Azure, your AI concierge. How may I assist you today? "
    + "You can ask me about room service, local attractions, hotel amenities, or any other questions "
    + "you have during your stay."

  /** Identifier of the opening message. */
  const WelcomeId: string := "welcome-message"
}
