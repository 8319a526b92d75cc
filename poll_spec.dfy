/** The poll store as a value and each transition of the message handler as
    a function from the store before to the store after and the reply. The
    lemmas state what each transition promises. */
module PollSpec {
  import opened Wrappers
  import opened JsText
  import opened Orders
  import opened Aggregate
  import opened OrderParser
  import opened Commands
  import opened Replies

  /** A poll: whether it is open, and its orders by sender. */
  datatype Poll = Poll(active: bool, orders: OrderBook)

  /** The process-wide `polls` object and the `currentPoll` name. */
  datatype State = State(polls: map<string, Poll>, current: Option<string>)

  datatype Transition = Transition(state: State, reply: Option<Reply>)

  /** No polls and no current poll. */
  const Initial: State := State(map[], None)

  const DefaultPollName: string := "default"

  /** `name` is a stored poll that is open. */
  predicate IsActive(polls: map<string, Poll>, name: string)
  {
    name in polls && polls[name].active
  }

  /** There is a current poll and it is open. */
  predicate CurrentIsActive(st: State)
  {
    st.current.Some? && IsActive(st.polls, st.current.value)
  }

  /** The named poll, or the current one when no name is given. */
  function Target(arg: string, current: Option<string>): Option<string>
  {
    if arg != "" then Some(arg) else current
  }

  /** What every reachable store satisfies: the current poll name is a
      stored poll, and every order book has one key per sender and holds no
      all-zero order. */
  ghost predicate Valid(st: State)
  {
    (st.current.Some? ==> st.current.value in st.polls) &&
    forall name :: name in st.polls ==> ValidBook(st.polls[name].orders)
  }

  ghost predicate ValidBook(os: OrderBook)
  {
    DistinctNames(os) && forall e :: e in os ==> !e.order.IsZero()
  }

  // ---------------------------------------------------------------------
  // Transitions

  /** `!startpoll [name]`. */
  function StartStep(st: State, arg: string): Transition
  {
    var name := if arg != "" then arg else DefaultPollName;
    if IsActive(st.polls, name) then Transition(st, Some(AlreadyActive(name)))
    else Transition(State(st.polls[name := Poll(true, [])], Some(name)), Some(Started(name)))
  }

  /** `!endpoll [name]`. */
  function EndStep(st: State, arg: string): Transition
  {
    var target := Target(arg, st.current);
    if target.None? || !IsActive(st.polls, target.value) then Transition(st, Some(NoSuchActivePoll))
    else
      var name := target.value;
      var poll := st.polls[name];
      Transition(st.(polls := st.polls[name := poll.(active := false)]),
                 Some(Ended(name, ListingText(poll.orders), SumOrders(poll.orders))))
  }

  /** `!showpoll [name]`. */
  function ShowReply(st: State, arg: string): Reply
  {
    var target := Target(arg, st.current);
    if target.None? || !IsActive(st.polls, target.value) then NoActivePoll
    else
      var poll := st.polls[target.value];
      if poll.orders == [] then NoOrdersYet
      else Current(target.value, ListingText(poll.orders), SumOrders(poll.orders))
  }

  /** `!cancel`. */
  function CancelStep(st: State, sender: string): Transition
  {
    if !CurrentIsActive(st) then Transition(st, Some(NoPollToCancel))
    else
      var name := st.current.value;
      var poll := st.polls[name];
      if sender !in Names(poll.orders) then Transition(st, Some(NoOrderToCancel))
      else Transition(st.(polls := st.polls[name := poll.(orders := Remove(poll.orders, sender))]), Some(Cancelled))
  }

  /** Free text: an order for the current poll when it is active. */
  function RecordStep(st: State, sender: string, lower: string): Transition
  {
    if !CurrentIsActive(st) then Transition(st, None)
    else
      var order := ParseOrder(lower);
      if order.IsZero() then Transition(st, None)
      else
        var name := st.current.value;
        var poll := st.polls[name];
        Transition(st.(polls := st.polls[name := poll.(orders := Put(poll.orders, sender, order))]),
                   Some(Noted(sender, name, order)))
  }

  /** The handler after the self/empty filter, on the normalised text. */
  function Dispatch(st: State, sender: string, lower: string): Transition
  {
    match Classify(lower)
    case Ping => Transition(st, Some(Pong))
    case Help => Transition(st, Some(HelpText))
    case StartPoll(arg) => StartStep(st, arg)
    case EndPoll(arg) => EndStep(st, arg)
    case ShowPoll(arg) => Transition(st, Some(ShowReply(st, arg)))
    case Cancel => CancelStep(st, sender)
    case FreeText => RecordStep(st, sender, lower)
  }

  /** The whole `messages.upsert` handler for one message. */
  function Step(st: State, msg: Incoming): Transition
  {
    if msg.content.None? || msg.fromMe then Transition(st, None)
    else Dispatch(st, SenderName(msg.pushName), Normalize(TextOf(msg.content.value)))
  }

  // ---------------------------------------------------------------------
  // The invariant

  lemma PutKeepsValidBook(os: OrderBook, sender: string, order: Order)
    requires ValidBook(os) && !order.IsZero()
    ensures ValidBook(Put(os, sender, order))
  {
    PutKeepsDistinct(os, sender, order);
    PutEntries(os, sender, order);
  }

  lemma RemoveKeepsValidBook(os: OrderBook, sender: string)
    requires ValidBook(os)
    ensures ValidBook(Remove(os, sender))
  {
    RemoveKeepsDistinct(os, sender);
    RemoveEntries(os, sender);
  }

  /** Every transition keeps the store valid. */
  lemma StepPreservesValid(st: State, msg: Incoming)
    requires Valid(st)
    ensures Valid(Step(st, msg).state)
  {
    if msg.content.Some? && !msg.fromMe {
      var sender := SenderName(msg.pushName);
      var lower := Normalize(TextOf(msg.content.value));
      DispatchPreservesValid(st, sender, lower);
    }
  }

  lemma DispatchPreservesValid(st: State, sender: string, lower: string)
    requires Valid(st)
    ensures Valid(Dispatch(st, sender, lower).state)
  {
    match Classify(lower)
    case Cancel =>
      if CurrentIsActive(st) {
        RemoveKeepsValidBook(st.polls[st.current.value].orders, sender);
      }
    case FreeText =>
      if CurrentIsActive(st) && !ParseOrder(lower).IsZero() {
        PutKeepsValidBook(st.polls[st.current.value].orders, sender, ParseOrder(lower));
      }
    case _ =>
  }

  // ---------------------------------------------------------------------
  // What the transitions promise

  /** Messages the bot sent itself, and messages without content, are
      dropped before any classification: nothing changes, nothing is sent. */
  lemma IgnoredMessages(st: State, msg: Incoming)
    requires msg.fromMe || msg.content.None?
    ensures Step(st, msg) == Transition(st, None)
  {
  }

  /** `!startpoll` on an active poll changes nothing, not even the current
      poll; otherwise the poll (named "default" when no name is given)
      restarts empty and active, becomes current, and no other poll changes. */
  lemma StartStepSpec(st: State, arg: string)
    ensures var name := if arg != "" then arg else DefaultPollName;
      var t := StartStep(st, arg);
      if IsActive(st.polls, name) then t == Transition(st, Some(AlreadyActive(name)))
      else
        && t.state.current == Some(name)
        && t.state.polls[name] == Poll(true, [])
        && ShowReply(t.state, "") == NoOrdersYet
        && (forall p :: p != name ==> (p in t.state.polls <==> p in st.polls))
        && (forall p :: p != name && p in st.polls ==> t.state.polls[p] == st.polls[p])
        && t.reply == Some(Started(name))
  {
  }

  /** Starting a poll twice in a row: the second start is refused and
      leaves the first one's orders alone. */
  lemma StartTwiceRefused(st: State, arg: string, later: string)
    requires var name := if arg != "" then arg else DefaultPollName; later == name
    ensures var s1 := StartStep(st, arg).state;
      StartStep(s1, later) == Transition(s1, Some(AlreadyActive(later)))
  {
  }

  /** `!endpoll` on a missing or inactive target changes nothing. On an
      active target only `active` becomes false: the orders and the current
      poll stay, and the summary lists those orders with their exact
      totals. */
  lemma EndStepSpec(st: State, arg: string)
    ensures var target := Target(arg, st.current);
      var t := EndStep(st, arg);
      if target.None? || !IsActive(st.polls, target.value) then t == Transition(st, Some(NoSuchActivePoll))
      else
        var name := target.value;
        var os := st.polls[name].orders;
        && t.state.current == st.current
        && t.state.polls == st.polls[name := Poll(false, os)]
        && t.reply.Some? && t.reply.value.Ended?
        && t.reply.value.poll == name
        && t.reply.value.listing == ListingText(os)
        && (forall c :: t.reply.value.totals.Get(c) == SumOf(os, c))
  {
  }

  /** After a poll ends, showing it reports no active poll, ending it again
      is refused, free text is ignored when it was the current poll, and its
      orders are kept. */
  lemma AfterEnd(st: State, arg: string, sender: string, lower: string)
    requires var target := Target(arg, st.current); target.Some? && IsActive(st.polls, target.value)
    ensures var s1 := EndStep(st, arg).state;
      && ShowReply(s1, arg) == NoActivePoll
      && EndStep(s1, arg) == Transition(s1, Some(NoSuchActivePoll))
      && (st.current == Target(arg, st.current) ==> RecordStep(s1, sender, lower) == Transition(s1, None))
      && s1.polls[Target(arg, st.current).value].orders == st.polls[Target(arg, st.current).value].orders
  {
  }

  /** `!showpoll` gives distinct replies for "no active poll", "active with
      no orders yet" and "active with orders", and the last lists the
      orders with their exact totals. */
  lemma ShowReplySpec(st: State, arg: string)
    ensures var target := Target(arg, st.current);
      var r := ShowReply(st, arg);
      && (r == NoActivePoll <==> target.None? || !IsActive(st.polls, target.value))
      && (r == NoOrdersYet <==> target.Some? && IsActive(st.polls, target.value) && st.polls[target.value].orders == [])
      && (r.Current? <==> target.Some? && IsActive(st.polls, target.value) && st.polls[target.value].orders != [])
      && (r.Current? ==>
            && r.poll == target.value
            && r.listing == ListingText(st.polls[target.value].orders)
            && forall c :: r.totals.Get(c) == SumOf(st.polls[target.value].orders, c))
  {
  }

  /** `!showpoll` never changes the store, whatever its argument. */
  lemma ShowChangesNothing(st: State, sender: string, t: string)
    ensures Dispatch(st, sender, "!showpoll" + t).state == st
  {
    PollCommandsByPrefix(t);
  }

  /** Free text changes nothing and gets no reply when the current poll is
      missing or inactive or the parsed order is all zero. */
  lemma IdleFreeText(st: State, sender: string, lower: string)
    requires !CurrentIsActive(st) || ParseOrder(lower).IsZero()
    ensures RecordStep(st, sender, lower) == Transition(st, None)
  {
  }

  /** A non-zero order replaces the sender's whole entry in the current poll
      (no merging with an earlier order) and no other entry or poll changes;
      a first order is listed last, a later one keeps its place. */
  lemma RecordReplaces(st: State, sender: string, lower: string)
    requires Valid(st) && CurrentIsActive(st) && !ParseOrder(lower).IsZero()
    ensures var name := st.current.value;
      var os := st.polls[name].orders;
      var t := RecordStep(st, sender, lower);
      && t.state.current == st.current
      && t.state.polls.Keys == st.polls.Keys
      && (forall p :: p in st.polls && p != name ==> t.state.polls[p] == st.polls[p])
      && t.state.polls[name].active
      && ToMap(t.state.polls[name].orders) == ToMap(os)[sender := ParseOrder(lower)]
      && Names(t.state.polls[name].orders) == (if sender in Names(os) then Names(os) else Names(os) + [sender])
      && t.reply == Some(Noted(sender, name, ParseOrder(lower)))
  {
    var os := st.polls[st.current.value].orders;
    PutToMap(os, sender, ParseOrder(lower));
    PutKeepsDistinct(os, sender, ParseOrder(lower));
  }

  /** A second order from the same sender leaves only the second one. */
  lemma ResubmitReplaces(st: State, sender: string, first: string, second: string)
    requires Valid(st) && CurrentIsActive(st)
    requires !ParseOrder(first).IsZero() && !ParseOrder(second).IsZero()
    ensures var s2 := RecordStep(RecordStep(st, sender, first).state, sender, second).state;
      Lookup(s2.polls[st.current.value].orders, sender) == Some(ParseOrder(second))
  {
    var name := st.current.value;
    var os := st.polls[name].orders;
    var os1 := Put(os, sender, ParseOrder(first));
    PutKeepsDistinct(os, sender, ParseOrder(first));
    PutToMap(os1, sender, ParseOrder(second));
    LookupToMap(Put(os1, sender, ParseOrder(second)), sender);
  }

  /** `!cancel` with no active current poll, or from a sender with no entry,
      changes nothing; otherwise it deletes exactly the sender's entry, the
      other entries keep their order and the totals drop by that order. */
  lemma CancelStepSpec(st: State, sender: string)
    requires Valid(st)
    ensures var t := CancelStep(st, sender);
      if !CurrentIsActive(st) then t == Transition(st, Some(NoPollToCancel))
      else
        var name := st.current.value;
        var os := st.polls[name].orders;
        if sender !in Names(os) then t == Transition(st, Some(NoOrderToCancel))
        else
          && t.reply == Some(Cancelled)
          && t.state.current == st.current
          && (forall p :: p in st.polls && p != name ==> t.state.polls[p] == st.polls[p])
          && t.state.polls.Keys == st.polls.Keys
          && t.state.polls[name].active
          && ToMap(t.state.polls[name].orders) == ToMap(os) - {sender}
          && (forall i :: 0 <= i < |os| && os[i].name == sender ==>
                t.state.polls[name].orders == os[..i] + os[i + 1..] &&
                forall c :: SumOf(t.state.polls[name].orders, c) + os[i].order.Get(c) == SumOf(os, c))
  {
    if CurrentIsActive(st) {
      var os := st.polls[st.current.value].orders;
      RemoveToMap(os, sender);
      forall i | 0 <= i < |os| && os[i].name == sender
        ensures Remove(os, sender) == os[..i] + os[i + 1..]
        ensures forall c :: SumOf(Remove(os, sender), c) + os[i].order.Get(c) == SumOf(os, c)
      {
        RemoveExisting(os, i);
        forall c ensures SumOf(Remove(os, sender), c) + os[i].order.Get(c) == SumOf(os, c) {
          SumAfterRemove(os, i, c);
        }
      }
    }
  }

  /** A first order followed by `!cancel` from the same sender gives back
      the store as it was. */
  lemma RecordThenCancel(st: State, sender: string, lower: string)
    requires CurrentIsActive(st) && !ParseOrder(lower).IsZero()
    requires sender !in Names(st.polls[st.current.value].orders)
    ensures CancelStep(RecordStep(st, sender, lower).state, sender) == Transition(st, Some(Cancelled))
  {
    var name := st.current.value;
    var os := st.polls[name].orders;
    var order := ParseOrder(lower);
    var os1 := os + [Entry(sender, order)];
    PutNew(os, sender, order);
    RemoveLast(os, Entry(sender, order));
    assert Names(os1)[|os|] == sender;
    var s1 := State(st.polls[name := Poll(true, os1)], st.current);
    assert s1.polls[name := Poll(true, os)] == st.polls;
  }

  /** One step per transition keeps the store valid. */
  lemma TransitionsPreserveValid(st: State, arg: string, sender: string, lower: string)
    requires Valid(st)
    ensures Valid(StartStep(st, arg).state)
    ensures Valid(EndStep(st, arg).state)
    ensures Valid(CancelStep(st, sender).state)
    ensures Valid(RecordStep(st, sender, lower).state)
  {
    if CurrentIsActive(st) {
      var os := st.polls[st.current.value].orders;
      RemoveKeepsValidBook(os, sender);
      if !ParseOrder(lower).IsZero() {
        PutKeepsValidBook(os, sender, ParseOrder(lower));
      }
    }
  }

  // ---------------------------------------------------------------------
  // End to end

  /** A plain text message from a contact. */
  function Say(sender: string, text: string): Incoming
  {
    Incoming(false, Some(Content(text, "")), sender)
  }

  /** `!startpoll`, a space and a name (no space in it, no upper-case
      letter, no trailing whitespace), from anyone, is the start transition
      for that name. */
  lemma StartByText(st: State, host: string, poll: string)
    requires poll != [] && ' ' !in poll && !IsSpace(poll[|poll| - 1]) && LowerCased(poll)
    ensures Step(st, Say(host, "!startpoll " + poll)) == StartStep(st, poll)
  {
    StartCommandText(poll);
  }

  /** A message reading `!endpoll` once lower-cased and trimmed (so
      `!EndPoll` or ` !endpoll ` too), from anyone, ends the current poll. */
  lemma EndByText(st: State, host: string, text: string)
    requires Normalize(text) == "!endpoll"
    ensures Step(st, Say(host, text)) == EndStep(st, "")
  {
    ClassifyBareCommand("!endpoll");
    assert Dispatch(st, SenderName(host), "!endpoll") == EndStep(st, "");
  }

  /** An order the customer spells out: every listed category once, the
      unlisted ones at zero, and not all zero. */
  predicate Spelled(o: Order, cs: seq<Category>)
  {
    && cs != [] && !o.IsZero()
    && (forall i, j :: 0 <= i < j < |cs| ==> cs[i] != cs[j])
    && forall c :: c !in cs ==> o.Get(c) == 0
  }

  /** Order text in the help text's style (`half 2, chapati 3`, or with any
      other separator free of letters and digits) survives normalisation,
      is free text, and parses back to the order. */
  lemma OrderTextIsFreeText(o: Order, cs: seq<Category>, sep: string)
    requires Spelled(o, cs) && IsSeparator(sep) && LowerCased(sep)
    ensures var text := OrderText(o, cs, sep);
      Normalize(text) == text && Classify(text) == FreeText && ParseOrder(text) == o
  {
    var text := OrderText(o, cs, sep);
    OrderTextShape(o, cs, sep);
    LowerTextIsFreeText(text);
    ParseOrderText(o, cs, sep);
    RestrictUnlisted(o, cs);
  }

  /** Text without upper-case letters, starting with a letter and ending
      with a digit, is left alone by normalisation and is not a command. */
  lemma LowerTextIsFreeText(t: string)
    requires |t| > 0 && IsLower(t[0]) && IsDigit(t[|t| - 1]) && LowerCased(t)
    ensures Normalize(t) == t && Classify(t) == FreeText
  {
    NormalizeIdentity(t);
    FreeTextClassified(t);
  }

  lemma RestrictUnlisted(o: Order, cs: seq<Category>)
    requires forall c :: c !in cs ==> o.Get(c) == 0
    ensures Restrict(o, cs) == o
  {
    assert forall c :: Restrict(o, cs).Get(c) == o.Get(c);
  }

  /** A message whose normalised text is free text parsing to a non-zero
      order, sent while the current poll is active, records that order for
      the sender and acknowledges it. */
  lemma RecordByText(st: State, push: string, text: string, o: Order)
    requires CurrentIsActive(st) && !o.IsZero()
    requires Classify(Normalize(text)) == FreeText && ParseOrder(Normalize(text)) == o
    ensures var name := st.current.value;
      var sender := SenderName(push);
      Step(st, Say(push, text)) ==
        Transition(st.(polls := st.polls[name := st.polls[name].(orders := Put(st.polls[name].orders, sender, o))]),
                   Some(Noted(sender, name, o)))
  {
  }

  /** Order text in the help text's style, sent while the current poll is
      active, records exactly that order for the sender and acknowledges
      it. */
  lemma OrderByText(st: State, push: string, o: Order, cs: seq<Category>, sep: string)
    requires CurrentIsActive(st) && Spelled(o, cs)
    requires IsSeparator(sep) && LowerCased(sep)
    ensures var name := st.current.value;
      var sender := SenderName(push);
      Step(st, Say(push, OrderText(o, cs, sep))) ==
        Transition(st.(polls := st.polls[name := st.polls[name].(orders := Put(st.polls[name].orders, sender, o))]),
                   Some(Noted(sender, name, o)))
  {
    OrderTextIsFreeText(o, cs, sep);
    RecordByText(st, push, OrderText(o, cs, sep), o);
  }
}
