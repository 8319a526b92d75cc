/** The message handler over the process-wide `polls` object and
    `currentPoll` name, which it updates in place. */
module PollBot {
  import opened Wrappers
  import opened Orders
  import opened Aggregate
  import opened OrderParser
  import opened Commands
  import opened Replies
  import opened PollSpec

  class PollStore {
    var polls: map<string, Poll>
    var currentPoll: Option<string>

    /** The store as a value. */
    function Model(): State
      reads this
    {
      State(polls, currentPoll)
    }

    ghost predicate Valid()
      reads this
    {
      PollSpec.Valid(Model())
    }

    /** The store starts with no polls and no current poll. */
    constructor ()
      ensures Model() == Initial && Valid()
    {
      polls := map[];
      currentPoll := None;
    }

    /** `!startpoll [name]` (bot.js lines 112-128): opens the poll afresh
        and makes it current, unless it is already open. */
    method StartPoll(arg: string) returns (reply: Reply)
      requires Valid()
      modifies this
      ensures Valid()
      ensures Transition(Model(), Some(reply)) == StartStep(old(Model()), arg)
    {
      var name := if arg != "" then arg else DefaultPollName;
      if name in polls && polls[name].active {
        reply := AlreadyActive(name);
      } else {
        polls := polls[name := Poll(true, [])];
        currentPoll := Some(name);
        reply := Started(name);
      }
      TransitionsPreserveValid(old(Model()), arg, "", "");
    }

    /** bot.js lines 131-151: only `active` is cleared; the summary is
        built from the orders the poll keeps. */
    method EndPoll(arg: string) returns (reply: Reply)
      requires Valid()
      modifies this
      ensures Valid()
      ensures Transition(Model(), Some(reply)) == EndStep(old(Model()), arg)
    {
      var target := if arg != "" then Some(arg) else currentPoll;
      if target.None? || target.value !in polls || !polls[target.value].active {
        reply := NoSuchActivePoll;
      } else {
        var name := target.value;
        var poll := polls[name];
        polls := polls[name := poll.(active := false)];
        var totals := CalculateTotals(poll.orders);
        var listing := RenderListing(poll.orders);
        reply := Ended(name, listing, totals);
      }
      TransitionsPreserveValid(old(Model()), arg, "", "");
    }

    /** bot.js lines 154-177: reads the store and changes nothing. */
    method ShowPoll(arg: string) returns (reply: Reply)
      ensures reply == ShowReply(Model(), arg)
    {
      var target := if arg != "" then Some(arg) else currentPoll;
      if target.None? || target.value !in polls || !polls[target.value].active {
        reply := NoActivePoll;
      } else {
        var poll := polls[target.value];
        var totals := CalculateTotals(poll.orders);
        if |poll.orders| == 0 {
          reply := NoOrdersYet;
        } else {
          var listing := RenderListing(poll.orders);
          reply := Current(target.value, listing, totals);
        }
      }
    }

    /** `!cancel` (bot.js lines 180-190): deletes the sender's order from the
        current poll when it is open and holds one. */
    method CancelOrder(sender: string) returns (reply: Reply)
      requires Valid()
      modifies this
      ensures Valid()
      ensures Transition(Model(), Some(reply)) == CancelStep(old(Model()), sender)
    {
      if currentPoll.None? || currentPoll.value !in polls || !polls[currentPoll.value].active {
        reply := NoPollToCancel;
      } else {
        var name := currentPoll.value;
        if Lookup(polls[name].orders, sender).None? {
          reply := NoOrderToCancel;
        } else {
          polls := polls[name := polls[name].(orders := Remove(polls[name].orders, sender))];
          reply := Cancelled;
        }
      }
      TransitionsPreserveValid(old(Model()), "", sender, "");
    }

    /** Free text (bot.js lines 193-210): a non-zero parsed order replaces
        the sender's entry in the open current poll. */
    method RecordOrder(sender: string, lower: string) returns (reply: Option<Reply>)
      requires Valid()
      modifies this
      ensures Valid()
      ensures Transition(Model(), reply) == RecordStep(old(Model()), sender, lower)
    {
      reply := None;
      if currentPoll.Some? && currentPoll.value in polls && polls[currentPoll.value].active {
        var name := currentPoll.value;
        var order := ParseOrder(lower);
        if !order.IsZero() {
          polls := polls[name := polls[name].(orders := Put(polls[name].orders, sender, order))];
          reply := Some(Noted(sender, name, order));
        }
      }
      TransitionsPreserveValid(old(Model()), "", sender, lower);
    }

    /** The handler's command tests on the normalised text, in order. */
    method DispatchCommand(sender: string, lower: string) returns (reply: Option<Reply>)
      requires Valid()
      modifies this
      ensures Valid()
      ensures Transition(Model(), reply) == Dispatch(old(Model()), sender, lower)
    {
      match Classify(lower) {
        case Ping =>
          reply := Some(Pong);
        case Help =>
          reply := Some(HelpText);
        case StartPoll(arg) =>
          var r := StartPoll(arg);
          reply := Some(r);
        case EndPoll(arg) =>
          var r := EndPoll(arg);
          reply := Some(r);
        case ShowPoll(arg) =>
          var r := ShowPoll(arg);
          reply := Some(r);
        case Cancel =>
          var r := CancelOrder(sender);
          reply := Some(r);
        case FreeText =>
          reply := RecordOrder(sender, lower);
      }
    }

    /** The `messages.upsert` handler for one message: messages the bot sent
        and messages without content are dropped, the rest dispatched. */
    method HandleMessage(msg: Incoming) returns (reply: Option<Reply>)
      requires Valid()
      modifies this
      ensures Valid()
      ensures Transition(Model(), reply) == Step(old(Model()), msg)
    {
      if msg.content.None? || msg.fromMe {
        return None;
      }
      var sender := SenderName(msg.pushName);
      var lower := Normalize(TextOf(msg.content.value));
      reply := DispatchCommand(sender, lower);
    }
  }
}
