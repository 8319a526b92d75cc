/** `calculateTotals` and the per-participant listing that the end and show
    summaries print. */
module Aggregate {
  import opened JsText
  import opened Orders

  /** The three per-category totals of a poll. */
  datatype Totals = Totals(half: nat, full: nat, chapati: nat)
  {
    function Get(c: Category): nat
    {
      match c
      case Half => half
      case Full => full
      case Chapati => chapati
    }
  }

  /** The sum of category `c` over every order in the book. */
  function SumOf(os: OrderBook, c: Category): nat
    decreases |os|
  {
    if os == [] then 0 else SumOf(os[..|os| - 1], c) + os[|os| - 1].order.Get(c)
  }

  function SumOrders(os: OrderBook): Totals
  {
    Totals(SumOf(os, Half), SumOf(os, Full), SumOf(os, Chapati))
  }

  /** calculateTotals: one pass over the orders adding each category. */
  method CalculateTotals(os: OrderBook) returns (t: Totals)
    ensures forall c :: t.Get(c) == SumOf(os, c)
    ensures os == [] ==> t == Totals(0, 0, 0)
  {
    var totalHalf, totalFull, totalChapati := 0, 0, 0;
    for i := 0 to |os|
      invariant totalHalf == SumOf(os[..i], Half)
      invariant totalFull == SumOf(os[..i], Full)
      invariant totalChapati == SumOf(os[..i], Chapati)
    {
      assert os[..i + 1][..i] == os[..i];
      var order := os[i].order;
      totalHalf := totalHalf + order.half;
      totalFull := totalFull + order.full;
      totalChapati := totalChapati + order.chapati;
    }
    assert os[..|os|] == os;
    t := Totals(totalHalf, totalFull, totalChapati);
  }

  lemma {:induction false} SumAppend(a: OrderBook, b: OrderBook, c: Category)
    ensures SumOf(a + b, c) == SumOf(a, c) + SumOf(b, c)
    decreases |b|
  {
    if b == [] {
      assert a + b == a;
    } else {
      assert (a + b)[..|a + b| - 1] == a + b[..|b| - 1];
      SumAppend(a, b[..|b| - 1], c);
    }
  }

  /** Replacing the entry at `i` swaps its quantities in the sum. */
  lemma SumReplace(os: OrderBook, i: nat, e: Entry, c: Category)
    requires i < |os|
    ensures SumOf(os[i := e], c) + os[i].order.Get(c) == SumOf(os, c) + e.order.Get(c)
  {
    assert os == os[..i] + [os[i]] + os[i + 1..];
    assert os[i := e] == os[..i] + [e] + os[i + 1..];
    SumAppend(os[..i] + [os[i]], os[i + 1..], c);
    SumAppend(os[..i], [os[i]], c);
    SumAppend(os[..i] + [e], os[i + 1..], c);
    SumAppend(os[..i], [e], c);
  }

  /** Recording an order changes each total by the new quantity less the
      quantity it replaces; all other orders still count once. */
  lemma SumAfterPut(os: OrderBook, name: string, order: Order, c: Category)
    requires DistinctNames(os)
    ensures SumOf(Put(os, name, order), c) + (if name in Names(os) then Lookup(os, name).value.Get(c) else 0)
         == SumOf(os, c) + order.Get(c)
  {
    if name in Names(os) {
      var i :| 0 <= i < |os| && Names(os)[i] == name;
      PutExisting(os, i, order);
      LookupAt(os, i);
      SumReplace(os, i, Entry(name, order), c);
    } else {
      PutNew(os, name, order);
      SumAppend(os, [Entry(name, order)], c);
    }
  }

  /** Cancelling an order takes exactly its quantities off the totals. */
  lemma SumAfterRemove(os: OrderBook, i: nat, c: Category)
    requires DistinctNames(os) && i < |os|
    ensures SumOf(Remove(os, os[i].name), c) + os[i].order.Get(c) == SumOf(os, c)
  {
    RemoveExisting(os, i);
    assert os == os[..i] + [os[i]] + os[i + 1..];
    SumAppend(os[..i] + [os[i]], os[i + 1..], c);
    SumAppend(os[..i], [os[i]], c);
    SumAppend(os[..i], os[i + 1..], c);
  }

  // ---------------------------------------------------------------------
  // The listing

  /** One participant's line of a summary: name, then the half, full and
      chapati quantities, ending in a newline. */
  function Line(e: Entry): string
  {
    "\U{1F464} " + e.name + ": " + NatToString(e.order.half) + " Half, " +
    NatToString(e.order.full) + " Full, " + NatToString(e.order.chapati) + " Chapati\n"
  }

  /** The lines of `xs`, one after the other, in order. */
  function Lines<T>(xs: seq<T>, line: T -> string): string
    decreases |xs|
  {
    if xs == [] then "" else Lines(xs[..|xs| - 1], line) + line(xs[|xs| - 1])
  }

  lemma {:induction false} LinesAppend<T>(a: seq<T>, b: seq<T>, line: T -> string)
    ensures Lines(a + b, line) == Lines(a, line) + Lines(b, line)
    decreases |b|
  {
    if b == [] {
      assert a + b == a;
    } else {
      var ab, b' := a + b, b[..|b| - 1];
      assert ab[..|ab| - 1] == a + b';
      assert ab[|ab| - 1] == b[|b| - 1];
      LinesAppend(a, b', line);
    }
  }

  /** One line per entry, in the book's key order. */
  function ListingText(os: OrderBook): string
  {
    Lines(os, Line)
  }

  /** The loop that appends one line per entry, in key order. */
  method RenderListing(os: OrderBook) returns (text: string)
    ensures text == ListingText(os)
  {
    text := "";
    for i := 0 to |os|
      invariant text == Lines(os[..i], Line)
    {
      assert os[..i + 1][..i] == os[..i];
      text := text + Line(os[i]);
    }
    assert os[..|os|] == os;
  }

  /** The listing of two books one after the other is the two listings joined. */
  lemma ListingAppend(a: OrderBook, b: OrderBook)
    ensures ListingText(a + b) == ListingText(a) + ListingText(b)
  {
    LinesAppend(a, b, Line);
  }

  /** A participant's first order adds its line at the end of the listing;
      a later order rewrites that participant's line where it stands. */
  lemma ListingAfterPut(os: OrderBook, name: string, order: Order)
    requires DistinctNames(os)
    ensures name !in Names(os) ==>
      ListingText(Put(os, name, order)) == ListingText(os) + Line(Entry(name, order))
    ensures forall i :: 0 <= i < |os| && os[i].name == name ==>
      ListingText(Put(os, name, order)) == ListingText(os[..i]) + Line(Entry(name, order)) + ListingText(os[i + 1..])
  {
    if name !in Names(os) {
      PutNew(os, name, order);
      ListingAppend(os, [Entry(name, order)]);
      assert ListingText([Entry(name, order)]) == Line(Entry(name, order));
    }
    forall i | 0 <= i < |os| && os[i].name == name
      ensures ListingText(Put(os, name, order)) == ListingText(os[..i]) + Line(Entry(name, order)) + ListingText(os[i + 1..])
    {
      var e := Entry(name, order);
      PutExisting(os, i, order);
      assert os[i := e] == os[..i] + [e] + os[i + 1..];
      ListingAppend(os[..i] + [e], os[i + 1..]);
      ListingAppend(os[..i], [e]);
      assert ListingText([e]) == Line(e);
    }
  }

  function Count(s: string, ch: char): nat
    decreases |s|
  {
    if s == [] then 0 else Count(s[1..], ch) + (if s[0] == ch then 1 else 0)
  }

  lemma {:induction false} CountAppend(a: string, b: string, ch: char)
    ensures Count(a + b, ch) == Count(a, ch) + Count(b, ch)
    decreases |a|
  {
    if a == [] {
      assert a + b == b;
    } else {
      assert (a + b)[1..] == a[1..] + b;
      CountAppend(a[1..], b, ch);
    }
  }

  lemma {:induction false} CountAbsent(s: string, ch: char)
    requires ch !in s
    ensures Count(s, ch) == 0
    decreases |s|
  {
    if s != [] {
      CountAbsent(s[1..], ch);
    }
  }

  lemma LineHasOneNewline(e: Entry)
    requires '\n' !in e.name
    ensures Count(Line(e), '\n') == 1
  {
    var h, f, c := NatToString(e.order.half), NatToString(e.order.full), NatToString(e.order.chapati);
    var s1 := "\U{1F464} " + e.name + ": " + h + " Half, " + f + " Full, " + c + " Chapati";
    assert Line(e) == s1 + "\n";
    assert '\n' !in s1 by {
      assert forall s :: AllDigits(s) ==> '\n' !in s;
    }
    CountAbsent(s1, '\n');
    CountAppend(s1, "\n", '\n');
  }

  /** The listing holds exactly one line per participant (names carry no
      line break of their own). */
  lemma {:induction false} ListingLineCount(os: OrderBook)
    requires forall i :: 0 <= i < |os| ==> '\n' !in os[i].name
    ensures Count(ListingText(os), '\n') == |os|
    decreases |os|
  {
    if os != [] {
      ListingLineCount(os[..|os| - 1]);
      assert ListingText(os) == ListingText(os[..|os| - 1]) + Line(os[|os| - 1]);
      CountAppend(ListingText(os[..|os| - 1]), Line(os[|os| - 1]), '\n');
      LineHasOneNewline(os[|os| - 1]);
    }
  }
}
