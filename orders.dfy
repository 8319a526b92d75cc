/** One participant's order and the per-poll order book. The book models a
    JavaScript object used as a dictionary: it keeps its keys in insertion
    order, assigning to an existing key keeps its position, and `delete`
    drops the key so that assigning it again puts it at the end. */
module Orders {
  import opened Wrappers

  /** The item categories the bot recognises, with the keyword of each. */
  datatype Category = Half | Full | Chapati

  function Keyword(c: Category): string
  {
    match c
    case Half => "half"
    case Full => "full"
    case Chapati => "chapati"
  }

  /** The quantities of one order; a category left out of the text is 0. */
  datatype Order = Order(half: nat, full: nat, chapati: nat)
  {
    function Get(c: Category): nat
    {
      match c
      case Half => half
      case Full => full
      case Chapati => chapati
    }

    /** Every category is 0. */
    predicate IsZero()
    {
      half == 0 && full == 0 && chapati == 0
    }
  }

  datatype Entry = Entry(name: string, order: Order)

  /** The orders of one poll, in the object's key order. */
  type OrderBook = seq<Entry>

  function Names(os: OrderBook): (ns: seq<string>)
    ensures |ns| == |os|
    ensures forall i :: 0 <= i < |os| ==> ns[i] == os[i].name
  {
    seq(|os|, i requires 0 <= i < |os| => os[i].name)
  }

  /** Every key appears once, as in an object. */
  predicate DistinctNames(os: OrderBook)
  {
    forall i, j :: 0 <= i < j < |os| ==> os[i].name != os[j].name
  }

  /** The order stored under `name`, if any. */
  function Lookup(os: OrderBook, name: string): (r: Option<Order>)
    ensures r.None? <==> name !in Names(os)
    ensures r.Some? ==> Entry(name, r.value) in os
  {
    if os == [] then None
    else if os[0].name == name then Some(os[0].order)
    else
      assert Names(os) == [os[0].name] + Names(os[1..]);
      Lookup(os[1..], name)
  }

  /** In a book with distinct keys, a key's lookup finds its entry. */
  lemma {:induction false} LookupAt(os: OrderBook, i: nat)
    requires DistinctNames(os) && i < |os|
    ensures Lookup(os, os[i].name) == Some(os[i].order)
  {
    if i > 0 {
      LookupAt(os[1..], i - 1);
    }
  }

  /** Assigning under `name`: replaces in place, or appends a new key. */
  function Put(os: OrderBook, name: string, order: Order): OrderBook
  {
    if os == [] then [Entry(name, order)]
    else if os[0].name == name then [Entry(name, order)] + os[1..]
    else [os[0]] + Put(os[1..], name, order)
  }

  /** Deleting the key `name`. */
  function Remove(os: OrderBook, name: string): OrderBook
  {
    if os == [] then []
    else if os[0].name == name then Remove(os[1..], name)
    else [os[0]] + Remove(os[1..], name)
  }

  /** The dictionary the book stands for. */
  function ToMap(os: OrderBook): map<string, Order>
  {
    if os == [] then map[] else ToMap(os[1..])[os[0].name := os[0].order]
  }

  /** Lookup reads the dictionary view. */
  lemma {:induction false} LookupToMap(os: OrderBook, name: string)
    ensures Lookup(os, name) == if name in ToMap(os) then Some(ToMap(os)[name]) else None
  {
    if os != [] && os[0].name != name {
      LookupToMap(os[1..], name);
    }
  }

  /** Assigning a key replaces that key's order outright and leaves every
      other key's order as it was. */
  lemma {:induction false} PutToMap(os: OrderBook, name: string, order: Order)
    requires DistinctNames(os)
    ensures ToMap(Put(os, name, order)) == ToMap(os)[name := order]
  {
    if os == [] {
    } else if os[0].name == name {
      assert Put(os, name, order)[1..] == os[1..];
      assert name !in Names(os[1..]);
      LookupToMap(os[1..], name);
    } else {
      assert Put(os, name, order)[1..] == Put(os[1..], name, order);
      PutToMap(os[1..], name, order);
    }
  }

  /** Deleting a key removes exactly that key from the dictionary. */
  lemma {:induction false} RemoveToMap(os: OrderBook, name: string)
    ensures ToMap(Remove(os, name)) == ToMap(os) - {name}
  {
    if os != [] {
      RemoveToMap(os[1..], name);
      if os[0].name != name {
        assert Remove(os, name)[1..] == Remove(os[1..], name);
      }
    }
  }

  /** Assigning an existing key keeps its position. */
  lemma {:induction false} PutExisting(os: OrderBook, i: nat, order: Order)
    requires DistinctNames(os) && i < |os|
    ensures Put(os, os[i].name, order) == os[i := Entry(os[i].name, order)]
  {
    if i > 0 {
      PutExisting(os[1..], i - 1, order);
      assert os[1..][i - 1 := Entry(os[i].name, order)] == os[i := Entry(os[i].name, order)][1..];
    }
  }

  /** Assigning a new key appends it at the end. */
  lemma {:induction false} PutNew(os: OrderBook, name: string, order: Order)
    requires name !in Names(os)
    ensures Put(os, name, order) == os + [Entry(name, order)]
  {
    if os != [] {
      assert Names(os) == [os[0].name] + Names(os[1..]);
      PutNew(os[1..], name, order);
      assert [os[0]] + (os[1..] + [Entry(name, order)]) == os + [Entry(name, order)];
    }
  }

  /** Deleting a key closes the gap it leaves; the other keys keep their order. */
  lemma {:induction false} RemoveExisting(os: OrderBook, i: nat)
    requires DistinctNames(os) && i < |os|
    ensures Remove(os, os[i].name) == os[..i] + os[i + 1..]
  {
    if i == 0 {
      assert os[i].name !in Names(os[1..]);
      RemoveAbsent(os[1..], os[0].name);
    } else {
      RemoveExisting(os[1..], i - 1);
      assert os[1..][..i - 1] + os[1..][i..] == (os[..i] + os[i + 1..])[1..];
    }
  }

  /** Deleting an absent key changes nothing. */
  lemma {:induction false} RemoveAbsent(os: OrderBook, name: string)
    requires name !in Names(os)
    ensures Remove(os, name) == os
  {
    if os != [] {
      assert Names(os) == [os[0].name] + Names(os[1..]);
      RemoveAbsent(os[1..], name);
    }
  }

  /** Deleting a key and assigning it again moves it to the end. */
  lemma ReAddMovesToEnd(os: OrderBook, i: nat, order: Order)
    requires DistinctNames(os) && i < |os|
    ensures Put(Remove(os, os[i].name), os[i].name, order) == os[..i] + os[i + 1..] + [Entry(os[i].name, order)]
  {
    RemoveExisting(os, i);
    var rest := os[..i] + os[i + 1..];
    assert os[i].name !in Names(rest);
    PutNew(rest, os[i].name, order);
  }

  /** Adding a new key and deleting it again gives back the original book. */
  lemma PutThenRemove(os: OrderBook, name: string, order: Order)
    requires name !in Names(os)
    ensures Remove(Put(os, name, order), name) == os
  {
    PutNew(os, name, order);
    RemoveLast(os, Entry(name, order));
  }

  lemma {:induction false} RemoveLast(os: OrderBook, e: Entry)
    requires e.name !in Names(os)
    ensures Remove(os + [e], e.name) == os
  {
    if os == [] {
      assert [e][1..] == [];
    } else {
      var xs := os + [e];
      assert Names(os)[0] == os[0].name;
      assert Names(os[1..]) == Names(os)[1..];
      assert xs[0] == os[0] && xs[1..] == os[1..] + [e];
      RemoveLast(os[1..], e);
      assert Remove(xs, e.name) == [os[0]] + Remove(xs[1..], e.name);
      assert [os[0]] + os[1..] == os;
    }
  }

  lemma PutKeepsDistinct(os: OrderBook, name: string, order: Order)
    requires DistinctNames(os)
    ensures DistinctNames(Put(os, name, order))
    ensures Names(Put(os, name, order)) == if name in Names(os) then Names(os) else Names(os) + [name]
  {
    if name in Names(os) {
      var i :| 0 <= i < |os| && Names(os)[i] == name;
      PutExisting(os, i, order);
    } else {
      PutNew(os, name, order);
    }
  }

  /** Dropping position `i` shifts every later entry down by one. */
  lemma DropAt(os: OrderBook, i: nat, r: OrderBook)
    requires i < |os| && r == os[..i] + os[i + 1..]
    ensures |r| == |os| - 1
    ensures forall k :: 0 <= k < i ==> r[k] == os[k]
    ensures forall k :: i <= k < |r| ==> r[k] == os[k + 1]
  {
  }

  lemma RemoveKeepsDistinct(os: OrderBook, name: string)
    requires DistinctNames(os)
    ensures DistinctNames(Remove(os, name))
    ensures name !in Names(Remove(os, name))
  {
    if name in Names(os) {
      var i :| 0 <= i < |os| && Names(os)[i] == name;
      RemoveExisting(os, i);
      var r := os[..i] + os[i + 1..];
      DropAt(os, i, r);
      forall a, b | 0 <= a < b < |r| ensures r[a].name != r[b].name {
        var a' := if a < i then a else a + 1;
        var b' := if b < i then b else b + 1;
        assert r[a] == os[a'] && r[b] == os[b'];
      }
      forall k | 0 <= k < |r| ensures r[k].name != name {
        var k' := if k < i then k else k + 1;
        assert r[k] == os[k'];
      }
    } else {
      RemoveAbsent(os, name);
    }
  }

  /** Every entry after an assignment is an old entry or the new one. */
  lemma {:induction false} PutEntries(os: OrderBook, name: string, order: Order)
    ensures forall e :: e in Put(os, name, order) ==> e in os || e == Entry(name, order)
  {
    if os != [] && os[0].name != name {
      PutEntries(os[1..], name, order);
    }
  }

  /** Every entry after a deletion is an old entry, under another key. */
  lemma {:induction false} RemoveEntries(os: OrderBook, name: string)
    ensures forall e :: e in Remove(os, name) ==> e in os && e.name != name
  {
    if os != [] {
      RemoveEntries(os[1..], name);
    }
  }
}
