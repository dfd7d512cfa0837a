/** The transcript kept by the chat screen (src/components/ChatInterface.tsx): an ordered
    list of messages that starts as the welcome message, and a flag telling whether a
    reply is awaited. Sending appends the user's message and a loading placeholder;
    the awaited reply replaces the placeholder (success) or the placeholder is simply
    dropped (failure); clearing goes back to the welcome message. The wait between
    sending and completing is modelled as two separate steps. */
module ChatInterface {
  import opened Text
  import opened Wrappers
  import opened KnowledgeBase
  import opened ChatService

  // ---------------------------------------------------------------------------
  // Message ids
  // ---------------------------------------------------------------------------

  const LoadingPrefix: string := "loading-"

  /** `Date.now().toString()` for the clock reading `clock`. */
  function UserId(clock: nat): string {
    NatToString(clock)
  }

  /** `"loading-" + Date.now().toString()` */
  function LoadingId(clock: nat): string {
    LoadingPrefix + NatToString(clock)
  }

  predicate IsLoadingId(id: string) {
    |id| >= |LoadingPrefix| && id[..|LoadingPrefix|] == LoadingPrefix
  }

  /** The characters `generateId` produces (base-36 digits of `Date.now()` and of
      `Math.random()`); in particular never a '-'. */
  predicate IsGeneratedId(id: string) {
    forall i :: 0 <= i < |id| ==> '0' <= id[i] <= '9' || 'a' <= id[i] <= 'z'
  }

  /** Placeholder ids carry the loading prefix; user ids (a bare number), the welcome id
      and generated reply ids never do. So removing the placeholder by id never removes
      any other message. */
  lemma IdsAreDistinguished(userClock: nat, loadingClock: nat, replyId: string)
    requires IsGeneratedId(replyId)
    ensures IsLoadingId(LoadingId(loadingClock))
    ensures !IsLoadingId(UserId(userClock))
    ensures !IsLoadingId(WelcomeId)
    ensures !IsLoadingId(replyId)
    ensures UserId(userClock) != LoadingId(loadingClock)
  {
    var u := UserId(userClock);
    assert LoadingPrefix[0] == 'l' && LoadingPrefix[7] == '-';
    assert IsDigit(u[0]);
    assert WelcomeId[0] == 'w';
    if |replyId| >= |LoadingPrefix| {
      assert replyId[7] != '-';
    }
    assert LoadingId(loadingClock)[..|LoadingPrefix|] == LoadingPrefix;
  }

  // ---------------------------------------------------------------------------
  // Messages and filtering
  // ---------------------------------------------------------------------------

  /** The user's message: the typed text, untagged, never loading, and with an id that
      no placeholder carries. */
  function UserMessage(content: string, clock: nat, timestamp: string): (m: Message)
    ensures m.sender == User && m.content == content && m.category == None && !m.isLoading
    ensures !IsLoadingId(m.id) && m.id != LoadingId(clock)
  {
    IdsAreDistinguished(clock, clock, "");
    Message(UserId(clock), User, content, timestamp, None, false)
  }

  /** The loading placeholder: an empty, untagged bot message marked as loading, whose
      id carries the loading prefix. */
  function Placeholder(clock: nat, timestamp: string): (m: Message)
    ensures m.sender == Bot && m.content == "" && m.category == None && m.isLoading
    ensures IsLoadingId(m.id) && m.id != WelcomeId
  {
    IdsAreDistinguished(clock, clock, "");
    Message(LoadingId(clock), Bot, "", timestamp, None, true)
  }

  /** `ms.filter(m => m.id !== id)`: exactly the messages with another id are kept. */
  function WithoutId(ms: seq<Message>, id: string): (r: seq<Message>)
    ensures |r| <= |ms|
    ensures forall m :: m in r <==> m in ms && m.id != id
  {
    if ms == [] then []
    else (if ms[0].id == id then [] else [ms[0]]) + WithoutId(ms[1..], id)
  }

  /** Filtering works element by element, so it distributes over concatenation and
      keeps the order of what it keeps. */
  lemma {:induction false} WithoutIdAppend(a: seq<Message>, b: seq<Message>, id: string)
    ensures WithoutId(a + b, id) == WithoutId(a, id) + WithoutId(b, id)
  {
    if a != [] {
      assert (a + b)[1..] == a[1..] + b;
      WithoutIdAppend(a[1..], b, id);
    } else {
      assert a + b == b;
    }
  }

  /** Filtering out an id that nobody carries changes nothing. */
  lemma {:induction false} WithoutIdAbsent(ms: seq<Message>, id: string)
    requires forall i :: 0 <= i < |ms| ==> ms[i].id != id
    ensures WithoutId(ms, id) == ms
  {
    if ms != [] {
      WithoutIdAbsent(ms[1..], id);
      assert ms == [ms[0]] + ms[1..];
    }
  }

  /** When only the last message carries the id, filtering drops exactly that one. */
  lemma WithoutIdDropsLast(ms: seq<Message>, id: string)
    requires |ms| >= 1 && ms[|ms| - 1].id == id
    requires forall i :: 0 <= i < |ms| - 1 ==> ms[i].id != id
    ensures WithoutId(ms, id) == ms[..|ms| - 1]
  {
    var init := ms[..|ms| - 1];
    assert ms == init + [ms[|ms| - 1]];
    WithoutIdAppend(init, [ms[|ms| - 1]], id);
    WithoutIdAbsent(init, id);
    assert WithoutId([ms[|ms| - 1]], id) == [];
  }

  predicate NoLoadingIds(ms: seq<Message>) {
    forall i :: 0 <= i < |ms| ==> !IsLoadingId(ms[i].id)
  }

  /** A whole send, as a transcript calculation: appending the user message and the
      placeholder, then filtering out the placeholder's id and appending the reply,
      leaves the old transcript followed by the user message and the reply. */
  lemma SendThenReply(ms: seq<Message>, user: Message, placeholder: Message, reply: Message)
    requires NoLoadingIds(ms) && !IsLoadingId(user.id) && IsLoadingId(placeholder.id)
    ensures WithoutId(ms + [user, placeholder], placeholder.id) + [reply] == ms + [user, reply]
    ensures WithoutId(ms + [user, placeholder], placeholder.id) == ms + [user]
  {
    var sent := ms + [user, placeholder];
    assert sent[..|sent| - 1] == ms + [user];
    forall i | 0 <= i < |sent| - 1 ensures sent[i].id != placeholder.id {
      if i < |ms| {
        assert !IsLoadingId(ms[i].id);
      }
    }
    WithoutIdDropsLast(sent, placeholder.id);
  }

  // ---------------------------------------------------------------------------
  // The chat screen's state
  // ---------------------------------------------------------------------------

  class ChatSession {
    var messages: seq<Message>
    var isProcessing: bool
    const welcome: Message

    /** The welcome message always comes first. While idle no message carries a loading
        id; while a reply is awaited only the last one does, and it is the placeholder. */
    predicate Valid()
      reads this
    {
      |messages| >= 1 && messages[0] == welcome && !IsLoadingId(welcome.id)
      && (!isProcessing ==> NoLoadingIds(messages))
      && (isProcessing ==>
            |messages| >= 2 && messages[|messages| - 1].isLoading
            && IsLoadingId(messages[|messages| - 1].id)
            && NoLoadingIds(messages[..|messages| - 1]))
    }

    /** The initial state: the welcome message alone, nothing awaited. */
    constructor(welcomeTimestamp: string)
      ensures Valid()
      ensures welcome == WelcomeMessage(welcomeTimestamp)
      ensures messages == [welcome] && !isProcessing
    {
      welcome := WelcomeMessage(welcomeTimestamp);
      messages := [WelcomeMessage(welcomeTimestamp)];
      isProcessing := false;
      new;
      IdsAreDistinguished(0, 0, "");
    }

    /** The clear button's enable rule: clearing is possible exactly when nothing is
        awaited and the transcript holds more than the welcome message. */
    predicate CanClear(): (r: bool)
      reads this
      ensures Valid() ==> (r <==> !isProcessing && messages != [welcome])
    {
      assert |messages| > 1 ==> |messages| != |[welcome]|;
      !(|messages| <= 1 || isProcessing)
    }

    /** The first half of handleSendMessage: append the user's message, then the loading
        placeholder, and mark a reply as awaited. Sending is disabled while a reply is
        awaited. Returns the placeholder's id. */
    method BeginSend(content: string, userClock: nat, userStamp: string, loadingClock: nat, loadingStamp: string)
      returns (loadingId: string)
      requires Valid() && !isProcessing
      modifies this
      ensures Valid() && isProcessing
      ensures loadingId == LoadingId(loadingClock)
      ensures messages == old(messages) + [UserMessage(content, userClock, userStamp), Placeholder(loadingClock, loadingStamp)]
    {
      IdsAreDistinguished(userClock, loadingClock, "");
      var user := UserMessage(content, userClock, userStamp);
      var placeholder := Placeholder(loadingClock, loadingStamp);
      messages := messages + [user];
      isProcessing := true;
      messages := messages + [placeholder];
      loadingId := placeholder.id;
      assert messages[..|messages| - 1] == old(messages) + [user];
    }

    /** The reply arrived: every message with the placeholder's id is filtered out and
        the reply appended. Only the placeholder goes, and nothing is awaited anymore. */
    method CompleteSuccess(loadingId: string, reply: Message)
      requires Valid() && isProcessing && loadingId == messages[|messages| - 1].id
      requires IsGeneratedId(reply.id)
      modifies this
      ensures Valid() && !isProcessing
      ensures messages == WithoutId(old(messages), loadingId) + [reply]
      ensures messages == old(messages)[..|old(messages)| - 1] + [reply]
    {
      DropPlaceholder(loadingId);
      IdsAreDistinguished(0, 0, reply.id);
      messages := WithoutId(messages, loadingId) + [reply];
      isProcessing := false;
    }

    /** Processing failed: the placeholder is filtered out and nothing is appended. */
    method CompleteFailure(loadingId: string)
      requires Valid() && isProcessing && loadingId == messages[|messages| - 1].id
      modifies this
      ensures Valid() && !isProcessing
      ensures messages == WithoutId(old(messages), loadingId)
      ensures messages == old(messages)[..|old(messages)| - 1]
    {
      DropPlaceholder(loadingId);
      messages := WithoutId(messages, loadingId);
      isProcessing := false;
    }

    /** Filtering the placeholder's id out of the current transcript removes the last
        message only, and keeps the welcome message first. */
    lemma DropPlaceholder(loadingId: string)
      requires Valid() && isProcessing && loadingId == messages[|messages| - 1].id
      ensures WithoutId(messages, loadingId) == messages[..|messages| - 1]
      ensures NoLoadingIds(WithoutId(messages, loadingId))
      ensures WithoutId(messages, loadingId)[0] == welcome
    {
      var init := messages[..|messages| - 1];
      forall i | 0 <= i < |messages| - 1 ensures messages[i].id != loadingId {
        assert init[i] == messages[i];
      }
      WithoutIdDropsLast(messages, loadingId);
    }

    /** handleClearChat: back to the welcome message alone. */
    method Clear()
      requires Valid() && CanClear()
      modifies this
      ensures Valid() && !isProcessing
      ensures messages == [welcome]
    {
      messages := [welcome];
    }
  }
}
