/**
 * The chat service's per-session history store. Each non-blank message is
 * appended to its session's history, the history is cut to its most recent
 * entries, an external chat-completion model is asked for a reply (or a fixed
 * fallback is used when the call fails) and the reply is appended too.
 */
module ChatService {
  import opened Wrappers
  import opened Text

  datatype Role = User | Assistant

  /** One `{"role": ..., "content": ...}` record of a history. */
  datatype Entry = Entry(role: Role, content: string)

  /** The number of entries a history is cut to before the model is called. */
  const MaxHistory: nat := 20

  /** The key shared by every call that comes without a session id. */
  const AnonKey := "__anon__"

  const EmptyMessageReply := "I didn't receive a message. How can I help you today?"
  const FallbackReply := "I'm having trouble connecting to my AI service right now. Please try again in a moment."

  /**
   * The external chat-completion model: given the history it is sent, the text
   * of its reply, or `None` when the call raises.
   */
  type Completion = seq<Entry> -> Option<string>

  /** `session_id or "__anon__"`: the caller's id unless it is missing or empty. */
  function SessionKey(sessionId: Option<string>): (key: string)
    ensures key != ""
    ensures sessionId.Some? && sessionId.value != "" ==> key == sessionId.value
    ensures sessionId.None? || sessionId.value == "" ==> key == AnonKey
  {
    match sessionId
    case Some(id) => if id != "" then id else AnonKey
    case None => AnonKey
  }

  /** `history[-MAX_HISTORY:]` when the history is longer than `MaxHistory`. */
  function Trim(history: seq<Entry>): seq<Entry>
  {
    if |history| > MaxHistory then history[|history| - MaxHistory..] else history
  }

  /** The history the model is sent: the previous one, the new user entry, cut to `MaxHistory`. */
  function Sent(before: seq<Entry>, userText: string): seq<Entry>
  {
    Trim(before + [Entry(User, userText)])
  }

  /** The reply text: the model's stripped text, or the fallback when the call failed. */
  function ReplyFrom(outcome: Option<string>): string
  {
    match outcome
    case Some(text) => Strip(text)
    case None => FallbackReply
  }

  /** The store and the reply after one call. */
  datatype TurnResult = TurnResult(histories: map<string, seq<Entry>>, reply: string)

  /** What one call of the service does to the store, as a function of the store before it. */
  function Turn(histories: map<string, seq<Entry>>, message: string, key: string, complete: Completion): TurnResult
  {
    if IsBlank(message) then
      TurnResult(histories, EmptyMessageReply)
    else
      var before := if key in histories then histories[key] else [];
      var sent := Sent(before, Strip(message));
      var reply := ReplyFrom(complete(sent));
      TurnResult(histories[key := sent + [Entry(Assistant, reply)]], reply)
  }

  /**
   * Read from its end, a history alternates assistant, user, assistant, ...:
   * it ends with an assistant entry and every entry answers or prompts its
   * neighbour.
   */
  ghost predicate Alternates(history: seq<Entry>)
  {
    forall i :: 0 <= i < |history| ==>
      history[i].role == if (|history| - i) % 2 == 1 then Assistant else User
  }

  /** Every stored history holds at least one exchange and at most `MaxHistory + 1` entries, alternating. */
  ghost predicate WellFormed(histories: map<string, seq<Entry>>)
  {
    forall key :: key in histories ==>
      2 <= |histories[key]| <= MaxHistory + 1 && Alternates(histories[key])
  }

  /** A blank message is answered at once and the store is left as it was. */
  lemma BlankMessageChangesNothing(histories: map<string, seq<Entry>>, message: string, key: string, complete: Completion)
    requires IsBlank(message)
    ensures Turn(histories, message, key, complete) == TurnResult(histories, EmptyMessageReply)
  {
  }

  /** Unfolds one non-blank call. */
  lemma TurnOnMessage(histories: map<string, seq<Entry>>, message: string, key: string, complete: Completion)
    requires !IsBlank(message)
    ensures var before := if key in histories then histories[key] else [];
      var sent := Sent(before, Strip(message));
      var reply := ReplyFrom(complete(sent));
      Turn(histories, message, key, complete) == TurnResult(histories[key := sent + [Entry(Assistant, reply)]], reply)
  {
  }

  /** A call changes the history of its own key only. */
  lemma TurnTouchesOnlyItsSession(histories: map<string, seq<Entry>>, message: string, key: string, complete: Completion, other: string)
    requires other != key
    ensures var after := Turn(histories, message, key, complete).histories;
      && (other in after <==> other in histories)
      && (other in histories ==> after[other] == histories[other])
  {
  }

  /**
   * The history stored after an exchange: the most recent entries of the
   * previous history followed by the user entry and the reply. Nothing is cut
   * until the user entry makes the list longer than `MaxHistory`, and then it
   * is cut to exactly `MaxHistory` before the reply is added.
   */
  lemma ExchangeShape(before: seq<Entry>, userText: string, reply: string)
    ensures var exchange := [Entry(User, userText), Entry(Assistant, reply)];
      var after := Sent(before, userText) + [exchange[1]];
      var full := before + exchange;
      && 2 <= |after| <= MaxHistory + 1
      && |after| == (if |before| + 1 > MaxHistory then MaxHistory else |before| + 1) + 1
      && after == full[|full| - |after|..]
      && after[|after| - 2..] == exchange
  {
    var user, answer := Entry(User, userText), Entry(Assistant, reply);
    var sent := Sent(before, userText);
    var after := sent + [answer];
    var full := before + [user, answer];
    var k := |full| - |after|;
    assert sent == (before + [user])[k..];
    assert after == full[k..];
  }

  /**
   * A non-blank call stores, under its key, the previous history cut to its
   * most recent entries followed by the stripped user message and the reply.
   * With the user entry the list is cut to its last `MaxHistory` entries only
   * when it is longer than that;
   * the model is sent everything but the reply, and the reply returned is the
   * one stored.
   */
  lemma TurnAppendsExchange(histories: map<string, seq<Entry>>, message: string, key: string, complete: Completion)
    requires !IsBlank(message)
    ensures var result := Turn(histories, message, key, complete);
      var before := if key in histories then histories[key] else [];
      var exchange := [Entry(User, Strip(message)), Entry(Assistant, result.reply)];
      var after := result.histories[key];
      var full := before + exchange;
      && 2 <= |after| <= MaxHistory + 1
      && |after| == (if |before| + 1 > MaxHistory then MaxHistory else |before| + 1) + 1
      && after == full[|full| - |after|..]
      && after[|after| - 2..] == exchange
      && result.reply == ReplyFrom(complete(after[..|after| - 1]))
  {
    var before := if key in histories then histories[key] else [];
    var sent := Sent(before, Strip(message));
    var reply := ReplyFrom(complete(sent));
    assert Turn(histories, message, key, complete) == TurnResult(histories[key := sent + [Entry(Assistant, reply)]], reply);
    ExchangeShape(before, Strip(message), reply);
    assert (sent + [Entry(Assistant, reply)])[..|sent|] == sent;
  }

  /** A failed model call still stores exactly one assistant entry: the fallback text. */
  lemma FailedCallStoresFallback(histories: map<string, seq<Entry>>, message: string, key: string, complete: Completion)
    requires !IsBlank(message)
    requires var before := if key in histories then histories[key] else [];
      complete(Sent(before, Strip(message))).None?
    ensures var result := Turn(histories, message, key, complete);
      && result.reply == FallbackReply
      && result.histories[key][|result.histories[key]| - 1] == Entry(Assistant, FallbackReply)
  {
  }

  /** Dropping entries from the front of an alternating history keeps it alternating. */
  lemma {:induction false} SuffixAlternates(history: seq<Entry>, k: nat)
    requires k <= |history| && Alternates(history)
    ensures Alternates(history[k..])
  {
    var tail := history[k..];
    forall i | 0 <= i < |tail|
      ensures tail[i].role == if (|tail| - i) % 2 == 1 then Assistant else User
    {
      assert tail[i] == history[k + i];
      assert |tail| - i == |history| - (k + i);
    }
  }

  /** Appending one exchange to an alternating history keeps it alternating. */
  lemma {:induction false} ExchangeAlternates(history: seq<Entry>, user: string, reply: string)
    requires Alternates(history)
    ensures Alternates(history + [Entry(User, user), Entry(Assistant, reply)])
  {
    var full := history + [Entry(User, user), Entry(Assistant, reply)];
    forall i | 0 <= i < |full|
      ensures full[i].role == if (|full| - i) % 2 == 1 then Assistant else User
    {
      if i < |history| {
        assert full[i] == history[i];
        assert |full| - i == (|history| - i) + 2;
      }
    }
  }

  /** An exchange keeps an alternating history alternating. */
  lemma ExchangeKeepsAlternation(before: seq<Entry>, userText: string, reply: string)
    requires Alternates(before)
    ensures Alternates(Sent(before, userText) + [Entry(Assistant, reply)])
  {
    var after := Sent(before, userText) + [Entry(Assistant, reply)];
    var full := before + [Entry(User, userText), Entry(Assistant, reply)];
    ExchangeShape(before, userText, reply);
    ExchangeAlternates(before, userText, reply);
    SuffixAlternates(full, |full| - |after|);
  }

  /** The store's invariant survives every call. */
  lemma TurnPreservesWellFormed(histories: map<string, seq<Entry>>, message: string, key: string, complete: Completion)
    requires WellFormed(histories)
    ensures WellFormed(Turn(histories, message, key, complete).histories)
  {
    if !IsBlank(message) {
      var before := if key in histories then histories[key] else [];
      var sent := Sent(before, Strip(message));
      var reply := ReplyFrom(complete(sent));
      assert Turn(histories, message, key, complete).histories == histories[key := sent + [Entry(Assistant, reply)]];
      ExchangeShape(before, Strip(message), reply);
      ExchangeKeepsAlternation(before, Strip(message), reply);
    }
  }

  lemma LastFourOfSuffix(mid: seq<Entry>, a: Entry, b: Entry, c: Entry, d: Entry, after: seq<Entry>)
    requires 2 <= |mid| && mid[|mid| - 2..] == [a, b]
    requires 4 <= |after| <= |mid| + 2 && after == (mid + [c, d])[|mid| + 2 - |after|..]
    ensures after[|after| - 4..] == [a, b, c, d]
  {
    var full := mid + [c, d];
    assert after[|after| - 4..] == full[|full| - 4..];
    assert full[|full| - 4..] == mid[|mid| - 2..] + [c, d];
  }

  /** Two exchanges in a row both stay, in order, at the end of the history. */
  lemma TwoExchangesStayInOrder(before: seq<Entry>, first: string, reply1: string, second: string, reply2: string)
    ensures var mid := Sent(before, first) + [Entry(Assistant, reply1)];
      var after := Sent(mid, second) + [Entry(Assistant, reply2)];
      && |after| >= 4
      && after[|after| - 4..] == [Entry(User, first), Entry(Assistant, reply1), Entry(User, second), Entry(Assistant, reply2)]
  {
    var mid := Sent(before, first) + [Entry(Assistant, reply1)];
    var after := Sent(mid, second) + [Entry(Assistant, reply2)];
    assert 2 <= |mid| && mid[|mid| - 2..] == [Entry(User, first), Entry(Assistant, reply1)] by {
      ExchangeShape(before, first, reply1);
    }
    assert 4 <= |after| <= |mid| + 2
      && after == (mid + [Entry(User, second), Entry(Assistant, reply2)])[|mid| + 2 - |after|..] by {
      ExchangeShape(mid, second, reply2);
    }
    LastFourOfSuffix(mid, Entry(User, first), Entry(Assistant, reply1), Entry(User, second), Entry(Assistant, reply2), after);
  }


  /**
   * Session continuity: two non-blank calls under the same key leave both
   * exchanges, in order, at the end of that key's history.
   */
  lemma TwoCallsShareHistory(histories: map<string, seq<Entry>>, first: string, second: string, key: string, complete: Completion)
    requires !IsBlank(first) && !IsBlank(second)
    ensures var one := Turn(histories, first, key, complete);
      var two := Turn(one.histories, second, key, complete);
      var after := two.histories[key];
      && |after| >= 4
      && after[|after| - 4..] == [Entry(User, Strip(first)), Entry(Assistant, one.reply),
                                  Entry(User, Strip(second)), Entry(Assistant, two.reply)]
  {
    var before := if key in histories then histories[key] else [];
    var sent1 := Sent(before, Strip(first));
    var reply1 := ReplyFrom(complete(sent1));
    var mid := sent1 + [Entry(Assistant, reply1)];
    var one := Turn(histories, first, key, complete);
    assert one == TurnResult(histories[key := mid], reply1);
    var sent2 := Sent(mid, Strip(second));
    var reply2 := ReplyFrom(complete(sent2));
    assert Turn(one.histories, second, key, complete) == TurnResult(one.histories[key := sent2 + [Entry(Assistant, reply2)]], reply2);
    TwoExchangesStayInOrder(before, Strip(first), reply1, Strip(second), reply2);
  }

  /**
   * Once a session has ten complete exchanges, the next call cuts the
   * oldest user message and keeps its answer: the stored history then starts
   * with an assistant entry.
   */
  lemma EleventhCallOrphansAnAnswer(histories: map<string, seq<Entry>>, message: string, key: string, complete: Completion)
    requires !IsBlank(message)
    requires key in histories && |histories[key]| == MaxHistory && Alternates(histories[key])
    ensures var after := Turn(histories, message, key, complete).histories[key];
      |after| == MaxHistory + 1 && after[0].role == Assistant
  {
    var before := histories[key];
    assert before[1].role == Assistant;
  }

  /** The module-level dictionary `_session_histories` and the two operations on it. */
  class SessionStore {
    var histories: map<string, seq<Entry>>

    ghost predicate Valid()
      reads this
    {
      WellFormed(histories)
    }

    constructor ()
      ensures histories == map[] && Valid()
    {
      histories := map[];
    }

    /**
     * The bookkeeping before the model is called: create the key's history if
     * it is missing, append the user entry and cut the history to its last
     * `MaxHistory` entries. `history` is the list object stored under `key`,
     * so each change to it is written back to the map.
     */
    method RecordUserMessage(key: string, text: string) returns (history: seq<Entry>)
      modifies this
      ensures history == Sent(if key in old(histories) then old(histories)[key] else [], text)
      ensures histories == old(histories)[key := history]
    {
      history := if key in histories then histories[key] else [];
      histories := histories[key := history];
      history := history + [Entry(User, text)];
      histories := histories[key := history];
      if |history| > MaxHistory {
        history := history[|history| - MaxHistory..];
        histories := histories[key := history];
      }
    }

    /**
     * `get_chatbot_response`: answer `message` within the session named by
     * `sessionId`, asking `complete` for the reply.
     */
    method GetChatbotResponse(message: string, sessionId: Option<string>, complete: Completion) returns (reply: string)
      modifies this
      ensures TurnResult(histories, reply) == Turn(old(histories), message, SessionKey(sessionId), complete)
      ensures old(Valid()) ==> Valid()
    {
      var text := Strip(message);
      if text == [] {
        reply := EmptyMessageReply;
        BlankMessageChangesNothing(histories, message, SessionKey(sessionId), complete);
        return;
      }
      var key := SessionKey(sessionId);
      var history := RecordUserMessage(key, text);
      reply := ReplyFrom(complete(history));
      history := history + [Entry(Assistant, reply)];
      histories := histories[key := history];
      assert histories == old(histories)[key := history];
      assert !IsBlank(message);
      TurnOnMessage(old(histories), message, key, complete);
      if old(Valid()) {
        TurnPreservesWellFormed(old(histories), message, key, complete);
      }
    }

    /** `clear_session`: forget one session's history; nothing happens if there is none. */
    method ClearSession(sessionId: string)
      modifies this
      ensures histories == old(histories) - {sessionId}
      ensures old(Valid()) ==> Valid()
    {
      if sessionId in histories {
        histories := histories - {sessionId};
      }
    }

    /**
     * The chat endpoint: the caller's session id when it is non-empty,
     * otherwise `freshId` (a newly generated UUID), is used for the call and
     * returned with the reply.
     */
    method Chat(message: string, sessionId: Option<string>, freshId: string, complete: Completion)
      returns (reply: string, usedId: string)
      modifies this
      ensures usedId == if sessionId.Some? && sessionId.value != "" then sessionId.value else freshId
      ensures TurnResult(histories, reply) == Turn(old(histories), message, SessionKey(Some(usedId)), complete)
      ensures old(Valid()) ==> Valid()
    {
      usedId := if sessionId.Some? && sessionId.value != "" then sessionId.value else freshId;
      reply := GetChatbotResponse(message, Some(usedId), complete);
    }
  }
}
