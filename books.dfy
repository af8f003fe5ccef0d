/** Resting entries, trade records and the two price/time-priority books of the matching engine. */
module Books {

  /** The integer codes an order carries for its type (OrderType) and its side (OrderSide). */
  const LIMIT: int := 1
  const MARKET: int := 2
  const BUY: int := 1
  const SELL: int := 2

  /** The type of a resting entry. Only LIMIT and MARKET orders ever rest, so an entry's type is one of these. */
  datatype OrderType = Limit | Market {
    /** The type's code: the book keys negate it, so MARKET entries sort ahead of LIMIT ones. */
    function Code(): int {
      if Limit? then LIMIT else MARKET
    }
  }

  /** The side an incoming order trades from. The bid book holds Buy entries and the ask book Sell entries. */
  datatype Side = Buy | Sell {
    function Opposite(): Side {
      if Buy? then Sell else Buy
    }
  }

  /** One row of a book: [price, volume, order id, order type]. */
  datatype Entry = Entry(price: int, volume: nat, id: int, kind: OrderType)

  datatype FillTag = Fill | Part

  /** One row of the trade log: the price, the volume, then the incoming order's id and tag, then the
      id and tag of the resting entry it matched. */
  datatype Trade = Trade(price: int, volume: nat, orderId: int, orderTag: FillTag, restingId: int, restingTag: FillTag)

  function Min(a: int, b: int): int {
    if a <= b then a else b
  }

  /** p is a better price than q on this side's book: higher for bids, lower for asks. */
  predicate BetterPrice(side: Side, p: int, q: int) {
    if side == Buy then p > q else p < q
  }

  /** a sorts strictly ahead of b in this side's book: the key is (-type, -price, id) for bids and
      (-type, price, id) for asks. The volume takes no part in the key. */
  predicate Precedes(side: Side, a: Entry, b: Entry) {
    || a.kind.Code() > b.kind.Code()
    || (a.kind == b.kind && BetterPrice(side, a.price, b.price))
    || (a.kind == b.kind && a.price == b.price && a.id < b.id)
  }

  /** No entry is preceded by an entry behind it. */
  predicate Sorted(side: Side, book: seq<Entry>) {
    forall i, j | 0 <= i < j < |book| :: !Precedes(side, book[j], book[i])
  }

  /** Not preceding is transitive: the sort key is a total preorder. */
  lemma NotPrecedesTransitive(side: Side, a: Entry, b: Entry, c: Entry)
    requires !Precedes(side, b, a) && !Precedes(side, c, b)
    ensures !Precedes(side, c, a)
  {
  }

  /** The number of leading entries that sort strictly ahead of e: where a stable sort puts an entry
      inserted at the front. */
  function Ahead(side: Side, book: seq<Entry>, e: Entry): (p: nat)
    ensures p <= |book|
    ensures forall k | 0 <= k < p :: Precedes(side, book[k], e)
    ensures p < |book| ==> !Precedes(side, book[p], e)
  {
    if book == [] || !Precedes(side, book[0], e) then 0 else Ahead(side, book[1..], e) + 1
  }

  /** The book after `book.insert(0, e)` followed by a stable sort on the side's key, when the book was
      sorted: e goes directly ahead of the first entry that does not sort strictly ahead of it, so it
      precedes the old entries whose key equals its own. */
  function Insert(side: Side, book: seq<Entry>, e: Entry): (r: seq<Entry>)
    ensures |r| == |book| + 1
    ensures multiset(r) == multiset(book) + multiset{e}
  {
    var p := Ahead(side, book, e);
    assert book == book[..p] + book[p..];
    book[..p] + [e] + book[p..]
  }

  /** In a sorted book every entry from Ahead on does not sort strictly ahead of e. */
  lemma NotAheadAfterPoint(side: Side, book: seq<Entry>, e: Entry)
    requires Sorted(side, book)
    ensures forall k | Ahead(side, book, e) <= k < |book| :: !Precedes(side, book[k], e)
  {
    var p := Ahead(side, book, e);
    forall k | p < k < |book|
      ensures !Precedes(side, book[k], e)
    {
      NotPrecedesTransitive(side, e, book[p], book[k]);
    }
  }

  /** Inserting into a sorted book gives a sorted book. */
  lemma InsertKeepsSorted(side: Side, book: seq<Entry>, e: Entry)
    requires Sorted(side, book)
    ensures Sorted(side, Insert(side, book, e))
  {
    var p := Ahead(side, book, e);
    var r := Insert(side, book, e);
    NotAheadAfterPoint(side, book, e);
    assert forall k | 0 <= k < p :: r[k] == book[k];
    assert r[p] == e;
    assert forall k | p < k < |r| :: r[k] == book[k - 1];
    forall i, j | 0 <= i < j < |r|
      ensures !Precedes(side, r[j], r[i])
    {
      if j < p {
        assert !Precedes(side, book[j], book[i]);
      } else if j == p {
        assert Precedes(side, book[i], e);
      } else if i == p {
        assert !Precedes(side, book[j - 1], e);
      } else if i < p {
        assert !Precedes(side, book[j - 1], book[i]);
      } else {
        assert !Precedes(side, book[j - 1], book[i - 1]);
      }
    }
  }

  /** The total volume resting on a book. */
  function Depth(book: seq<Entry>): nat {
    if book == [] then 0 else book[0].volume + Depth(book[1..])
  }

  /** The total volume of a trade log. */
  function Traded(log: seq<Trade>): nat {
    if log == [] then 0 else Traded(log[..|log| - 1]) + log[|log| - 1].volume
  }

  /** The book holds a LIMIT entry, so the scan-forward search for a trade price ends inside it. */
  predicate HasPriced(book: seq<Entry>) {
    exists i | 0 <= i < |book| :: book[i].kind == Limit
  }

  /** The index where the scan-forward search stops: the first entry that is not MARKET. */
  function PricedIndex(book: seq<Entry>): (k: nat)
    requires HasPriced(book)
    ensures k < |book| && book[k].kind == Limit
    ensures forall j | 0 <= j < k :: book[j].kind == Market
  {
    if book[0].kind == Limit then
      0
    else
      assert forall i | 1 <= i < |book| :: book[1..][i - 1] == book[i];
      PricedIndex(book[1..]) + 1
  }

  /** MARKET entries sort ahead of LIMIT ones, so removing the head of a sorted book that holds a LIMIT
      entry leaves an empty book or one that still holds a LIMIT entry. */
  lemma PopKeepsPriced(side: Side, book: seq<Entry>)
    requires Sorted(side, book) && HasPriced(book)
    ensures book[1..] == [] || HasPriced(book[1..])
  {
    if |book| > 1 {
      var k := PricedIndex(book);
      if k == 0 {
        assert !Precedes(side, book[1], book[0]);
        assert book[1..][0].kind == Limit;
      } else {
        assert book[1..][k - 1].kind == Limit;
      }
    }
  }
}
