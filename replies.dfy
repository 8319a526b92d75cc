/** The replies the handler sends, one constructor per `sendMessage`
    call site, and the exact text of each. */
module Replies {
  import opened JsText
  import opened Orders
  import opened Aggregate

  datatype Reply =
    | Pong
    | HelpText
    | AlreadyActive(poll: string)
    | Started(poll: string)
    | NoSuchActivePoll
    | Ended(poll: string, listing: string, totals: Totals)
    | NoActivePoll
    | NoOrdersYet
    | Current(poll: string, listing: string, totals: Totals)
    | NoPollToCancel
    | NoOrderToCancel
    | Cancelled
    | Noted(sender: string, poll: string, order: Order)

  /** The totals block that closes a summary. */
  function TotalsText(t: Totals): string
  {
    "\n\U{1F4CA} Totals:\nHalf: " + NatToString(t.half) + "\nFull: " + NatToString(t.full) +
    "\nChapati: " + NatToString(t.chapati)
  }

  /** The text sent for a reply. */
  function Message(r: Reply): (text: string)
    ensures r.Ended? || r.Current? ==> exists a :: text == a + r.listing + TotalsText(r.totals)
  {
    match r
    case Pong => "\U{1F3D3} Pong! Bot is alive."
    case HelpText =>
      "\U{1F9FE} Commands:\n" +
      "\U{2022} !startpoll [name] - Start new poll (e.g., !startpoll lunch)\n" +
      "\U{2022} !showpoll [name] - Show all orders for a poll\n" +
      "\U{2022} !cancel - Cancel your order in current poll\n" +
      "\U{2022} !endpoll [name] - End a poll\n" +
      "\nAfter starting, send orders like:\n'half 2, chapati 3' or 'full 1'"
    case AlreadyActive(p) => "\U{26A0}\U{FE0F} Poll '" + p + "' is already active!"
    case Started(p) =>
      "\U{1F4CB} Poll '" + p + "' started!\nSend your orders like:\n'half 2, chapati 3'\n" +
      "Use !cancel to cancel your order.\nUse !showpoll " + p + " to see totals.\n" +
      "Use !endpoll " + p + " to end it."
    case NoSuchActivePoll => "\U{26A0}\U{FE0F} No such active poll found."
    case Ended(p, listing, t) =>
      var head := "\U{1F4E6} Poll '" + p + "' Ended!\n\n";
      head + listing + TotalsText(t)
    case NoActivePoll => "\U{26A0}\U{FE0F} No active poll found."
    case NoOrdersYet => "\U{1F4ED} No orders yet for this poll."
    case Current(p, listing, t) =>
      var head := "\U{1F4CB} Current Orders for '" + p + "':\n";
      head + listing + TotalsText(t)
    case NoPollToCancel => "\U{26A0}\U{FE0F} No active poll to cancel from."
    case NoOrderToCancel => "\U{274C} You haven\U{2019}t placed any order yet."
    case Cancelled => "\U{1F5D1}\U{FE0F} Your order has been cancelled."
    case Noted(sender, p, o) =>
      "\U{2705} Order noted for " + sender + " in '" + p + "':\nHalf: " + NatToString(o.half) +
      "\nFull: " + NatToString(o.full) + "\nChapati: " + NatToString(o.chapati)
  }
}
