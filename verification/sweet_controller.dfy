/**
  The handlers of backend/controllers/sweetController.js, run against an
  in-memory table of records in place of the document store.

  The table is the class `Inventory`: a map from record id to record and a
  creation clock that stamps each new record, so that listings can be ordered
  newest first. Reads (`GetAll`, `Get`, `Search`) are functions of the table;
  the handlers that change it (`Create`, `Update`, `Delete`, `Purchase`,
  `Restock`) are methods.
*/
module SweetController {
  import opened Wrappers
  import opened SweetSchema

  /** A record id, as it appears in a request path. */
  type Id = string

  /** A record together with its id, as listings return it. */
  datatype Entry = Entry(id: Id, sweet: Sweet)

  /** What a handler answers. */
  datatype Response =
    | Ok(id: Id, sweet: Sweet)             // 200 or 201 with the record
    | Deleted                              // 200, record removed
    | NotFound                             // 404
    | InsufficientStock(available: int)   // 400, reporting the stock on hand
    | InvalidQuantity                      // 400, the requested amount is not positive
    | ValidationError(fields: set<Field>)  // the schema rejected these paths; nothing stored

  // ---------------------------------------------------------------------------
  // Search filter
  // ---------------------------------------------------------------------------

  /** The query string of a search; every parameter is optional. Prices are in cents. */
  datatype Query = Query(
    name: Option<string>,
    category: Option<string>,
    minPrice: Option<int>,
    maxPrice: Option<int>)

  const Unfiltered := Query(None, None, None, None)

  /** A query-string parameter takes part in the filter when it is present and non-empty. */
  predicate Given(p: Option<string>) {
    p.Some? && p.value != ""
  }

  function LowerChar(c: char): char {
    if 'A' <= c <= 'Z' then (c as int + 32) as char else c
  }

  /**
    ASCII case folding: no upper-case letter is left, exactly the upper-case
    letters change, and each of them becomes its lower-case partner.
  */
  function Lower(s: string): (r: string)
    ensures |r| == |s|
    ensures forall i | 0 <= i < |r| :: !('A' <= r[i] <= 'Z')
    ensures forall i | 0 <= i < |s| :: r[i] != s[i] <==> 'A' <= s[i] <= 'Z'
    ensures forall i | 0 <= i < |s| :: r[i] != s[i] ==> r[i] as int == s[i] as int + 32
  {
    seq(|s|, i requires 0 <= i < |s| => LowerChar(s[i]))
  }

  /** Folding an already folded string changes nothing. */
  lemma {:induction false} LowerIdempotent(s: string)
    ensures Lower(Lower(s)) == Lower(s)
  {
    var r := Lower(s);
    assert forall i | 0 <= i < |r| :: Lower(r)[i] == r[i];
  }

  /** The letter case of the searched name does not change which records match. */
  lemma {:induction false} PatternCaseIrrelevant(text: string, pattern: string)
    ensures ContainsIgnoringCase(text, pattern) <==> ContainsIgnoringCase(text, Lower(pattern))
  {
    LowerIdempotent(pattern);
    if ContainsIgnoringCase(text, pattern) {
      var i :| 0 <= i <= |text| - |pattern| && OccursAt(text, pattern, i);
      assert OccursAt(text, Lower(pattern), i);
    }
    if ContainsIgnoringCase(text, Lower(pattern)) {
      var i :| 0 <= i <= |text| - |Lower(pattern)| && OccursAt(text, Lower(pattern), i);
      assert OccursAt(text, pattern, i);
    }
  }

  /** `pattern` occurs in `text` at position `i`, ignoring letter case. */
  predicate OccursAt(text: string, pattern: string, i: int) {
    0 <= i && i + |pattern| <= |text| && Lower(text[i..i + |pattern|]) == Lower(pattern)
  }

  predicate ContainsIgnoringCase(text: string, pattern: string) {
    exists i | 0 <= i <= |text| - |pattern| :: OccursAt(text, pattern, i)
  }

  /**
    The conjunction the search handler builds: a case-insensitive name match
    when a name is given, category equality unless the category is absent or
    "All", and an inclusive price range whose bounds are each optional.
  */
  predicate Matches(q: Query, s: Sweet) {
    && (Given(q.name) ==> ContainsIgnoringCase(s.name, q.name.value))
    && (Given(q.category) && q.category.value != "All" ==> CategoryName(s.category) == q.category.value)
    && (q.minPrice.Some? ==> q.minPrice.value <= s.priceCents)
    && (q.maxPrice.Some? ==> s.priceCents <= q.maxPrice.value)
  }

  // ---------------------------------------------------------------------------
  // Newest-first listings
  // ---------------------------------------------------------------------------

  /** No two records of the table carry the same creation stamp. */
  ghost predicate StampsDistinct(m: map<Id, Sweet>) {
    forall i, j | i in m && j in m && i != j :: m[i].createdAt != m[j].createdAt
  }

  /** Each entry was created strictly after every entry that follows it. */
  predicate NewestFirstOrder(r: seq<Entry>) {
    forall k, l | 0 <= k < l < |r| :: r[k].sweet.createdAt > r[l].sweet.createdAt
  }

  /** `id` is the most recently created of `ids`. */
  predicate IsNewest(m: map<Id, Sweet>, ids: set<Id>, id: Id)
    requires ids <= m.Keys
  {
    id in ids && forall j | j in ids :: m[j].createdAt <= m[id].createdAt
  }

  lemma {:induction false} NewestExists(m: map<Id, Sweet>, ids: set<Id>)
    requires ids <= m.Keys && ids != {}
    ensures exists id :: IsNewest(m, ids, id)
    decreases ids
  {
    var x :| x in ids;
    if ids == {x} {
      assert IsNewest(m, ids, x);
    } else {
      NewestExists(m, ids - {x});
      var y :| IsNewest(m, ids - {x}, y);
      if m[x].createdAt <= m[y].createdAt {
        assert IsNewest(m, ids, y);
      } else {
        assert IsNewest(m, ids, x);
      }
    }
  }

  /** The records with ids in `ids`, each once, most recently created first. */
  function NewestFirst(m: map<Id, Sweet>, ids: set<Id>): (r: seq<Entry>)
    requires ids <= m.Keys && StampsDistinct(m)
    ensures |r| == |ids|
    ensures forall e | e in r :: e.id in ids && e.sweet == m[e.id]
    ensures forall id | id in ids :: Entry(id, m[id]) in r
    ensures NewestFirstOrder(r)
    decreases ids
  {
    if ids == {} then []
    else
      NewestExists(m, ids);
      NewestUnique(m, ids);
      var id :| IsNewest(m, ids, id);
      var rest := NewestFirst(m, ids - {id});
      NewestPrepended(m, ids, id, rest);
      [Entry(id, m[id])] + rest
  }

  /** With distinct stamps there is only one newest record. */
  lemma NewestUnique(m: map<Id, Sweet>, ids: set<Id>)
    requires ids <= m.Keys && StampsDistinct(m)
    ensures forall a, b | IsNewest(m, ids, a) && IsNewest(m, ids, b) :: a == b
  {
  }

  /** Putting the newest record in front of a listing of the others lists them all, newest first. */
  lemma NewestPrepended(m: map<Id, Sweet>, ids: set<Id>, id: Id, rest: seq<Entry>)
    requires ids <= m.Keys && StampsDistinct(m) && IsNewest(m, ids, id)
    requires |rest| == |ids - {id}|
    requires forall e | e in rest :: e.id in ids - {id} && e.sweet == m[e.id]
    requires forall j | j in ids - {id} :: Entry(j, m[j]) in rest
    requires NewestFirstOrder(rest)
    ensures var r := [Entry(id, m[id])] + rest;
      && |r| == |ids|
      && (forall e | e in r :: e.id in ids && e.sweet == m[e.id])
      && (forall j | j in ids :: Entry(j, m[j]) in r)
      && NewestFirstOrder(r)
  {
    var r := [Entry(id, m[id])] + rest;
    forall k, l | 0 <= k < l < |r| ensures r[k].sweet.createdAt > r[l].sweet.createdAt {
      if k == 0 {
        assert r[l] == rest[l - 1] && r[l] in rest;
      } else {
        assert r[k] == rest[k - 1] && r[l] == rest[l - 1];
      }
    }
  }

  /** Two newest-first listings of the same entries are the same listing. */
  lemma {:induction false} NewestFirstUnique(r1: seq<Entry>, r2: seq<Entry>)
    requires NewestFirstOrder(r1) && NewestFirstOrder(r2)
    requires forall e :: e in r1 <==> e in r2
    ensures r1 == r2
  {
    SameEntriesBothEmpty(r1, r2);
    if r1 != [] {
      HeadsAgree(r1, r2);
      forall e ensures e in r1[1..] <==> e in r2[1..] {
        if e in r1[1..] {
          TailInOther(r1, r2, e);
        }
        if e in r2[1..] {
          TailInOther(r2, r1, e);
        }
      }
      NewestFirstUnique(r1[1..], r2[1..]);
      assert r1 == [r1[0]] + r1[1..];
      assert r2 == [r2[0]] + r2[1..];
    }
  }

  /** Two newest-first listings of the same entries start with the same entry. */
  lemma HeadsAgree(r1: seq<Entry>, r2: seq<Entry>)
    requires NewestFirstOrder(r1) && NewestFirstOrder(r2)
    requires forall e :: e in r1 <==> e in r2
    requires r1 != [] && r2 != []
    ensures r1[0] == r2[0]
  {
    assert r1[0] in r2 && r2[0] in r1;
    var k :| 0 <= k < |r1| && r1[k] == r2[0];
    var l :| 0 <= l < |r2| && r2[l] == r1[0];
    assert r1[0].sweet.createdAt >= r2[0].sweet.createdAt;
    assert r2[0].sweet.createdAt >= r1[0].sweet.createdAt;
    assert k == 0;
  }

  lemma SameEntriesBothEmpty(r1: seq<Entry>, r2: seq<Entry>)
    requires forall e :: e in r1 <==> e in r2
    ensures r1 == [] <==> r2 == []
  {
    if r1 != [] {
      assert r1[0] in r1;
    }
    if r2 != [] {
      assert r2[0] in r2;
    }
  }

  /** An entry after the head of one listing is also after the head of the other. */
  lemma TailInOther(r1: seq<Entry>, r2: seq<Entry>, e: Entry)
    requires NewestFirstOrder(r1) && NewestFirstOrder(r2)
    requires forall x :: x in r1 <==> x in r2
    requires r1 != [] && r2 != [] && r1[0] == r2[0]
    requires e in r1[1..]
    ensures e in r2[1..]
  {
    var k :| 1 <= k < |r1| && r1[k] == e;
    assert e.sweet.createdAt < r1[0].sweet.createdAt;
    assert e in r2;
    var l :| 0 <= l < |r2| && r2[l] == e;
    assert l != 0;
    assert r2[1..][l - 1] == e;
  }

  // ---------------------------------------------------------------------------
  // Stock rules of the purchase handler
  // ---------------------------------------------------------------------------

  /** The units a purchase asks for: one when the body names no quantity. */
  function RequestedUnits(quantity: Option<int>): int {
    quantity.GetOr(1)
  }

  /**
    The purchase rule as the handler writes it: the only check is that the
    stock covers the requested amount, so a negative amount passes.
  */
  function PurchaseAsWritten(id: Id, s: Sweet, n: int): (r: Response)
    ensures r.Ok? <==> n <= s.quantity
    ensures !r.Ok? ==> r == InsufficientStock(s.quantity)
    ensures r.Ok? ==> r.id == id && r.sweet.quantity + n == s.quantity && r.sweet == s.(quantity := r.sweet.quantity)
  {
    if s.quantity < n then InsufficientStock(s.quantity)
    else Ok(id, s.(quantity := s.quantity - n))
  }

  /** Under the rule as written, "purchasing" a negative amount adds stock. */
  lemma NegativePurchaseAddsStock(id: Id, s: Sweet, n: int)
    requires 0 <= s.quantity && n < 0
    ensures PurchaseAsWritten(id, s, n).Ok?
    ensures PurchaseAsWritten(id, s, n).sweet.quantity > s.quantity
  {
  }

  /** The purchase rule with the evident intent: a purchase must ask for at least one unit. */
  function Purchased(id: Id, s: Sweet, n: int): (r: Response)
    ensures r.Ok? <==> 0 < n <= s.quantity
    ensures r.Ok? ==> r.id == id && r.sweet.quantity + n == s.quantity && r.sweet == s.(quantity := r.sweet.quantity)
    ensures r.Ok? ==> 0 <= r.sweet.quantity < s.quantity
    ensures !r.Ok? ==> r == (if n <= 0 then InvalidQuantity else InsufficientStock(s.quantity))
    ensures r.Ok? && ValidSweet(s) ==> ValidSweet(r.sweet)
  {
    if n <= 0 then InvalidQuantity
    else if s.quantity < n then InsufficientStock(s.quantity)
    else Ok(id, s.(quantity := s.quantity - n))
  }

  /** The correction changes nothing for a request of at least one unit. */
  lemma PurchasedAgreesOnPositive(id: Id, s: Sweet, n: int)
    requires 0 < n
    ensures Purchased(id, s, n) == PurchaseAsWritten(id, s, n)
  {
  }

  /** Two successful purchases of n units take 2n units off the stock. */
  lemma {:induction false} PurchaseTwice(id: Id, s: Sweet, n: int)
    requires Purchased(id, s, n).Ok?
    requires Purchased(id, Purchased(id, s, n).sweet, n).Ok?
    ensures Purchased(id, Purchased(id, s, n).sweet, n).sweet.quantity == s.quantity - 2 * n
  {
  }

  // ---------------------------------------------------------------------------
  // The table
  // ---------------------------------------------------------------------------

  /** Every record of `m` satisfies the schema and was stamped before `clock`, each with its own stamp. */
  ghost predicate Stocked(m: map<Id, Sweet>, clock: nat) {
    && (forall id | id in m :: ValidSweet(m[id]) && m[id].createdAt < clock)
    && StampsDistinct(m)
  }

  /** A valid record stamped with the clock may join the table once the clock moves on. */
  lemma StockedInsert(m: map<Id, Sweet>, clock: nat, id: Id, s: Sweet)
    requires Stocked(m, clock) && id !in m
    requires ValidSweet(s) && s.createdAt == clock
    ensures Stocked(m[id := s], clock + 1)
  {
  }

  /** A stored record may be replaced by a valid one that keeps its stamp. */
  lemma StockedReplace(m: map<Id, Sweet>, clock: nat, id: Id, s: Sweet)
    requires Stocked(m, clock) && id in m
    requires ValidSweet(s) && s.createdAt == m[id].createdAt
    ensures Stocked(m[id := s], clock)
  {
  }

  lemma StockedRemove(m: map<Id, Sweet>, clock: nat, id: Id)
    requires Stocked(m, clock)
    ensures Stocked(m - {id}, clock)
  {
  }

  class Inventory {
    var records: map<Id, Sweet>
    /** The creation stamp the next new record receives. */
    var clock: nat

    /** Every stored record satisfies the schema and was stamped before `clock`, each with its own stamp. */
    ghost predicate Valid()
      reads this
    {
      Stocked(records, clock)
    }

    constructor ()
      ensures Valid() && records == map[] && clock == 0
    {
      records := map[];
      clock := 0;
    }

    /** getAllSweets: every stored record, each once, newest first. */
    function GetAll(): (r: seq<Entry>)
      reads this
      requires Valid()
      ensures |r| == |records|
      ensures forall e | e in r :: e.id in records && e.sweet == records[e.id]
      ensures forall id | id in records :: Entry(id, records[id]) in r
      ensures NewestFirstOrder(r)
    {
      NewestFirst(records, records.Keys)
    }

    /** getSweet: the stored record, or NotFound. */
    function Get(id: Id): (r: Response)
      reads this
      ensures r.Ok? <==> id in records
      ensures r.Ok? ==> r.id == id && r.sweet == records[id]
      ensures !r.Ok? ==> r == NotFound
    {
      if id in records then Ok(id, records[id]) else NotFound
    }

    /** searchSweets: exactly the stored records that match the query, newest first. */
    function Search(q: Query): (r: seq<Entry>)
      reads this
      requires Valid()
      ensures forall e | e in r :: e.id in records && e.sweet == records[e.id] && Matches(q, e.sweet)
      ensures forall id | id in records && Matches(q, records[id]) :: Entry(id, records[id]) in r
      ensures NewestFirstOrder(r)
    {
      NewestFirst(records, set id | id in records && Matches(q, records[id]))
    }

    /** A search with no parameters lists the whole table, in the same order. */
    lemma {:induction false} UnfilteredSearchListsAll()
      requires Valid()
      ensures Search(Unfiltered) == GetAll()
    {
      NewestFirstUnique(Search(Unfiltered), GetAll());
    }

    /** The category "All" filters nothing: it answers as if no category were given. */
    lemma {:induction false} CategoryAllIsNoFilter(q: Query)
      requires Valid()
      ensures Search(q.(category := Some("All"))) == Search(q.(category := None))
    {
      NewestFirstUnique(Search(q.(category := Some("All"))), Search(q.(category := None)));
    }

    /** createSweet: the caller becomes `createdBy`; an invalid draft is rejected and nothing is stored. */
    method Create(caller: UserId, body: Body, newId: Id) returns (resp: Response)
      requires Valid()
      requires newId !in records
      modifies this
      ensures Valid()
      ensures var v := Validate(body.(createdBy := Some(caller)), old(clock));
        && (v.Failure? ==> resp == ValidationError(v.error) && records == old(records) && clock == old(clock))
        && (v.Success? ==> resp == Ok(newId, v.value) && records == old(records)[newId := v.value] && clock == old(clock) + 1)
      ensures resp.Ok? ==> resp.sweet.createdBy == caller && resp.sweet.createdAt == old(clock)
    {
      var draft := body.(createdBy := Some(caller));
      var v := Validate(draft, clock);
      if v.Failure? {
        resp := ValidationError(v.error);
      } else {
        StockedInsert(records, clock, newId, v.value);
        records := records[newId := v.value];
        clock := clock + 1;
        resp := Ok(newId, v.value);
      }
    }

    /** updateSweet: overwrite the supplied paths of one record, after validating them. */
    method Update(id: Id, body: Body) returns (resp: Response)
      requires Valid()
      modifies this
      ensures Valid() && clock == old(clock)
      ensures id !in old(records) ==> resp == NotFound && records == old(records)
      ensures id in old(records) ==>
        var u := ApplyUpdate(old(records)[id], body);
        && (u.Failure? ==> resp == ValidationError(u.error) && records == old(records))
        && (u.Success? ==> resp == Ok(id, u.value) && records == old(records)[id := u.value])
    {
      if id !in records {
        resp := NotFound;
        return;
      }
      var u := ApplyUpdate(records[id], body);
      if u.Failure? {
        resp := ValidationError(u.error);
      } else {
        StockedReplace(records, clock, id, u.value);
        records := records[id := u.value];
        resp := Ok(id, u.value);
      }
    }

    /** deleteSweet: remove one record for good; a later `Get` of it answers NotFound. */
    method Delete(id: Id) returns (resp: Response)
      requires Valid()
      modifies this
      ensures Valid() && clock == old(clock)
      ensures id !in old(records) ==> resp == NotFound && records == old(records)
      ensures id in old(records) ==> resp == Deleted && records == old(records) - {id}
      ensures Get(id) == NotFound
    {
      if id !in records {
        resp := NotFound;
        return;
      }
      StockedRemove(records, clock, id);
      records := records - {id};
      resp := Deleted;
    }

    /**
      purchaseSweet: take the requested units (one by default) off one record's
      stock. A refused purchase changes nothing; a granted one changes only that
      record's quantity.
    */
    method Purchase(id: Id, quantity: Option<int>) returns (resp: Response)
      requires Valid()
      modifies this
      ensures Valid() && clock == old(clock)
      ensures resp == (if id in old(records) then Purchased(id, old(records)[id], RequestedUnits(quantity)) else NotFound)
      ensures records == (if resp.Ok? then old(records)[id := resp.sweet] else old(records))
    {
      var n := RequestedUnits(quantity);
      if id !in records {
        resp := NotFound;
        return;
      }
      var sweet := records[id];
      if n <= 0 {
        resp := InvalidQuantity;
        return;
      }
      if sweet.quantity < n {
        resp := InsufficientStock(sweet.quantity);
        return;
      }
      sweet := sweet.(quantity := sweet.quantity - n);
      StockedReplace(records, clock, id, sweet);
      records := records[id := sweet];
      resp := Ok(id, sweet);
    }

    /**
      restockSweet: add units to one record's stock. A missing or non-positive
      amount is refused before the id is looked up.
    */
    method Restock(id: Id, quantity: Option<int>) returns (resp: Response)
      requires Valid()
      modifies this
      ensures Valid() && clock == old(clock)
      ensures (quantity.None? || quantity.value <= 0) ==> resp == InvalidQuantity && records == old(records)
      ensures quantity.Some? && quantity.value > 0 && id !in old(records) ==> resp == NotFound && records == old(records)
      ensures quantity.Some? && quantity.value > 0 && id in old(records) ==>
        && resp.Ok? && resp.id == id
        && resp.sweet.quantity == old(records)[id].quantity + quantity.value
        && resp.sweet == old(records)[id].(quantity := resp.sweet.quantity)
        && records == old(records)[id := resp.sweet]
    {
      if quantity.None? || quantity.value <= 0 {
        resp := InvalidQuantity;
        return;
      }
      if id !in records {
        resp := NotFound;
        return;
      }
      var sweet := records[id];
      sweet := sweet.(quantity := sweet.quantity + quantity.value);
      StockedReplace(records, clock, id, sweet);
      records := records[id := sweet];
      resp := Ok(id, sweet);
    }
  }
}
