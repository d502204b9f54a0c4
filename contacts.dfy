/** The contact book: its records, the read-only queries over the stored
    table, and the store whose create, update and delete change that table
    in place. */
module Contacts {
  import opened Dates
  import opened Text
  import opened Sequences

  datatype Option<+T> = None | Some(value: T)

  /** Outcome of a request: a value, "Contact not found" (HTTP 404) or a
      rejected parameter (HTTP 422). */
  datatype Result<+T> = Ok(value: T) | NotFound | Invalid

  /** The fields a client submits: everything but the identifier. */
  datatype ContactBase = ContactBase(
    name: string,
    surname: string,
    email: string,
    phoneNumber: string,
    birthday: Date,
    additionalInfo: Option<string>)

  /** A stored contact: the submitted fields plus the identifier the store assigned. */
  datatype Contact = Contact(
    id: int,
    name: string,
    surname: string,
    email: string,
    phoneNumber: string,
    birthday: Date,
    additionalInfo: Option<string>)
  {
    /** The record without its identifier. */
    function Base(): ContactBase {
      ContactBase(name, surname, email, phoneNumber, birthday, additionalInfo)
    }
  }

  /** The record holding `data` under identifier `id`. */
  function WithId(id: int, data: ContactBase): (c: Contact)
    ensures c.id == id && c.Base() == data
  {
    Contact(id, data.name, data.surname, data.email, data.phoneNumber, data.birthday, data.additionalInfo)
  }

  /** No two stored records share an identifier. */
  predicate UniqueIds(cs: seq<Contact>) {
    forall i, j :: 0 <= i < j < |cs| ==> cs[i].id != cs[j].id
  }

  // ---------------------------------------------------------------------
  // Read-only queries
  // ---------------------------------------------------------------------

  /** Position of the first record whose identifier is `id`
      (`filter(Contact.id == id).first()`), or None when there is none. */
  function IndexOf(cs: seq<Contact>, id: int): (r: Option<nat>)
    ensures r.Some? ==> r.value < |cs| && cs[r.value].id == id
    ensures r.Some? ==> forall j :: 0 <= j < r.value ==> cs[j].id != id
    ensures r.None? <==> forall j :: 0 <= j < |cs| ==> cs[j].id != id
  {
    if cs == [] then None
    else if cs[0].id == id then Some(0)
    else match IndexOf(cs[1..], id)
      case None => None
      case Some(k) => Some(k + 1)
  }

  /** The first position holding `id` is the one IndexOf finds. */
  lemma IndexOfFirst(cs: seq<Contact>, id: int, i: nat)
    requires i < |cs| && cs[i].id == id
    requires forall j :: 0 <= j < i ==> cs[j].id != id
    ensures IndexOf(cs, id) == Some(i)
  {
  }

  /** In a table with unique identifiers, a position holding `id` is the one IndexOf finds. */
  lemma IndexOfUnique(cs: seq<Contact>, id: int, i: nat)
    requires UniqueIds(cs) && i < |cs| && cs[i].id == id
    ensures IndexOf(cs, id) == Some(i)
  {
  }

  /** GET /contacts/{id}: the record with identifier `id`, or NotFound. */
  function FindById(cs: seq<Contact>, id: int): (r: Result<Contact>)
    ensures !r.Invalid?
    ensures r.Ok? <==> exists i :: 0 <= i < |cs| && cs[i].id == id
    ensures r.Ok? ==> r.value in cs && r.value.id == id
    ensures r.Ok? && UniqueIds(cs) ==> forall i :: 0 <= i < |cs| && cs[i].id == id ==> cs[i] == r.value
  {
    match IndexOf(cs, id)
    case None => NotFound
    case Some(i) => Ok(cs[i])
  }

  function Min(a: int, b: int): int {
    if a <= b then a else b
  }

  /** Page size of GET /contacts/ when the request gives no `limit`. */
  const DefaultLimit: nat := 10

  /** GET /contacts/?skip=&limit=: `OFFSET skip LIMIT limit` over the table
      in its stored order; a request without parameters asks for the first
      DefaultLimit records. */
  function Page(cs: seq<Contact>, skip: nat := 0, limit: nat := DefaultLimit): (r: seq<Contact>)
    ensures |r| <= limit
    ensures skip >= |cs| ==> r == []
    ensures skip < |cs| ==> |r| == Min(limit, |cs| - skip)
    ensures forall k :: 0 <= k < |r| ==> r[k] == cs[skip + k]
  {
    var rest := if skip >= |cs| then [] else cs[skip..];
    if limit >= |rest| then rest else rest[..limit]
  }

  /** A request without paging parameters returns the first ten records, or
      the whole table when it holds fewer. */
  lemma DefaultPage(cs: seq<Contact>)
    ensures |Page(cs)| <= 10
    ensures Page(cs) == cs[..Min(10, |cs|)]
  {
    var r := Page(cs);
    assert forall k :: 0 <= k < |r| ==> r[k] == cs[k];
  }

  /** Two consecutive pages together are the page that spans both. */
  lemma PageConcat(cs: seq<Contact>, skip: nat, a: nat, b: nat)
    ensures Page(cs, skip, a) + Page(cs, skip + a, b) == Page(cs, skip, a + b)
  {
  }

  /** A page starting at 0 and at least as long as the table is the whole table. */
  lemma PageAll(cs: seq<Contact>, limit: nat)
    requires limit >= |cs|
    ensures Page(cs, 0, limit) == cs
  {
  }

  /** Shortest search query the endpoint accepts (`min_length=3`). */
  const MinQueryLength := 3

  /** `name ILIKE '%q%' OR surname ILIKE '%q%' OR email ILIKE '%q%'`. */
  predicate Matches(c: Contact, query: string)
    ensures Matches(c, query) <==>
      OccursIn(Lower(c.name), Lower(query)) ||
      OccursIn(Lower(c.surname), Lower(query)) ||
      OccursIn(Lower(c.email), Lower(query))
    ensures Matches(c, query) ==> |query| <= |c.name| || |query| <= |c.surname| || |query| <= |c.email|
  {
    ILike(c.name, query) || ILike(c.surname, query) || ILike(c.email, query)
  }

  function MatchesQuery(query: string): Contact -> bool {
    c => Matches(c, query)
  }

  /** GET /search/?query=: no query gives no results, a query shorter than
      MinQueryLength is rejected, any other selects the matching records. */
  function Search(cs: seq<Contact>, query: Option<string>): (r: Result<seq<Contact>>)
    ensures query.None? ==> r == Ok([])
    ensures query.Some? && |query.value| < MinQueryLength ==> r == Invalid
    ensures query.Some? && |query.value| >= MinQueryLength ==>
      r.Ok? && IsSubsequence(r.value, cs) &&
      forall c :: c in r.value <==> c in cs && Matches(c, query.value)
  {
    match query
    case None => Ok([])
    case Some(q) =>
      if |q| < MinQueryLength then Invalid else Ok(Filter(cs, MatchesQuery(q)))
  }

  /** A valid search returns exactly the matching records, in table order:
      any order-preserving selection of the table holding each matching
      record as often as the table does, and nothing else, is the result. */
  lemma SearchExactly(cs: seq<Contact>, query: string, r: seq<Contact>)
    requires |query| >= MinQueryLength
    requires IsSubsequence(r, cs)
    requires forall c :: multiset(r)[c] == if Matches(c, query) then multiset(cs)[c] else 0
    ensures Search(cs, Some(query)) == Ok(r)
  {
    FilterUnique(cs, MatchesQuery(query), r);
  }

  /** The search ignores letter case in the query. */
  lemma SearchIgnoresCase(cs: seq<Contact>, query: string)
    ensures Search(cs, Some(query)) == Search(cs, Some(Lower(query)))
  {
    forall c ensures Matches(c, query) == Matches(c, Lower(query)) {
      ILikeIgnoresQueryCase(c.name, query);
      ILikeIgnoresQueryCase(c.surname, query);
      ILikeIgnoresQueryCase(c.email, query);
    }
    FilterCongruent(cs, MatchesQuery(query), MatchesQuery(Lower(query)));
  }

  /** A three-letter query in small letters finds a contact whose name
      starts with the same letters in capitals; a two-letter query is rejected. */
  lemma SearchAnnFindsAnna(id: int, data: ContactBase)
    requires data.name == "Anna"
    ensures Search([WithId(id, data)], Some("ann")) == Ok([WithId(id, data)])
    ensures Search([WithId(id, data)], Some("an")) == Invalid
  {
    var c := WithId(id, data);
    assert Lower("Anna") == "anna";
    assert Lower("ann") == "ann";
    assert OccursAt("anna", "ann", 0);
    ContainsIff("anna", "ann");
    assert IsSubsequence([c], [c]) by { assert [c][1..] == []; }
    SearchExactly([c], "ann", [c]);
  }

  /** Length of the birthday window after today, in days. */
  const UpcomingDays := 7

  /** The stored birthday, a full date, lies between today and the end of the window. */
  predicate InWindow(c: Contact, today: Date)
    ensures c.birthday == today ==> InWindow(c, today)
    ensures c.birthday == today.AddDays(UpcomingDays) ==> InWindow(c, today)
    ensures InWindow(c, today) ==> !c.birthday.AtMost(today.AddDays(-1))
    ensures InWindow(c, today) ==> c.birthday.AtMost(today.AddDays(UpcomingDays))
    ensures c.birthday == today.AddDays(UpcomingDays + 1) ==> !InWindow(c, today)
  {
    Between(c.birthday, today, today.AddDays(UpcomingDays))
  }

  function InWindowOf(today: Date): Contact -> bool {
    c => InWindow(c, today)
  }

  /** GET /birthdays/: `birthday BETWEEN today AND today + 7 days`. */
  function UpcomingBirthdays(cs: seq<Contact>, today: Date): (r: seq<Contact>)
    ensures IsSubsequence(r, cs)
    ensures forall c :: c in r <==>
      c in cs && today.ordinal <= c.birthday.ordinal <= today.ordinal + UpcomingDays
  {
    Filter(cs, InWindowOf(today))
  }

  /** The birthday query returns exactly the records in the window, in table order. */
  lemma UpcomingExactly(cs: seq<Contact>, today: Date, r: seq<Contact>)
    requires IsSubsequence(r, cs)
    requires forall c :: multiset(r)[c] == if InWindow(c, today) then multiset(cs)[c] else 0
    ensures UpcomingBirthdays(cs, today) == r
  {
    FilterUnique(cs, InWindowOf(today), r);
  }

  /** Dates are compared with their year: a birthday stored as a date
      before today (any birth date in the past) is never upcoming. */
  lemma PastBirthdayNotUpcoming(cs: seq<Contact>, today: Date, c: Contact)
    requires c.birthday.ordinal < today.ordinal
    ensures c !in UpcomingBirthdays(cs, today)
  {
  }

  // ---------------------------------------------------------------------
  // What the changing operations do to lookups
  // ---------------------------------------------------------------------

  /** Appending a record with a fresh identifier makes it findable and changes no other lookup. */
  lemma FindAfterAppend(cs: seq<Contact>, c: Contact, k: int)
    requires forall d :: d in cs ==> d.id != c.id
    ensures FindById(cs + [c], k) == if k == c.id then Ok(c) else FindById(cs, k)
  {
    var cs' := cs + [c];
    assert forall j :: 0 <= j < |cs| ==> cs'[j] == cs[j] && cs[j] in cs;
    if k == c.id {
      IndexOfFirst(cs', k, |cs|);
    } else {
      match IndexOf(cs, k)
      case None =>
      case Some(i) =>
        IndexOfFirst(cs', k, i);
    }
  }

  /** Removing the record at `i` from a table with unique identifiers makes
      its identifier unknown and changes no other lookup. */
  lemma FindAfterRemove(cs: seq<Contact>, i: nat, k: int)
    requires UniqueIds(cs) && i < |cs|
    ensures FindById(cs[..i] + cs[i + 1..], k) == if k == cs[i].id then NotFound else FindById(cs, k)
  {
    var cs' := cs[..i] + cs[i + 1..];
    assert forall j :: 0 <= j < |cs'| ==> cs'[j] == if j < i then cs[j] else cs[j + 1];
    if k != cs[i].id {
      match IndexOf(cs, k)
      case None =>
      case Some(m) =>
        var m' := if m < i then m else m - 1;
        assert cs'[m'] == cs[m];
    }
  }

  /** Removing a record keeps the others, each at its old position or one
      place earlier, so their identifiers stay unique. */
  lemma RemoveKeepsOthers(cs: seq<Contact>, i: nat)
    requires UniqueIds(cs) && i < |cs|
    ensures UniqueIds(cs[..i] + cs[i + 1..])
    ensures forall d :: d in cs[..i] + cs[i + 1..] ==> d in cs
  {
    var cs' := cs[..i] + cs[i + 1..];
    assert forall j :: 0 <= j < |cs'| ==> cs'[j] == if j < i then cs[j] else cs[j + 1];
  }

  /** Replacing the record at `i` by one with the same identifier makes
      lookups of that identifier return the new record and changes no other lookup. */
  lemma FindAfterReplace(cs: seq<Contact>, i: nat, c: Contact, k: int)
    requires UniqueIds(cs) && i < |cs| && c.id == cs[i].id
    ensures FindById(cs[i := c], k) == if k == c.id then Ok(c) else FindById(cs, k)
  {
    var cs' := cs[i := c];
    if k == c.id {
      IndexOfUnique(cs', k, i);
    } else {
      match IndexOf(cs, k)
      case None =>
      case Some(m) =>
        IndexOfUnique(cs', k, m);
    }
  }

  // ---------------------------------------------------------------------
  // The stored table
  // ---------------------------------------------------------------------

  /** The contact table: records in insertion order and the next identifier to assign. */
  class ContactStore {
    var contacts: seq<Contact>
    var nextId: int

    /** Identifiers are positive, unique, and below the next one to assign. */
    ghost predicate Valid()
      reads this
    {
      1 <= nextId &&
      UniqueIds(contacts) &&
      forall c :: c in contacts ==> 1 <= c.id < nextId
    }

    constructor ()
      ensures Valid()
      ensures contacts == [] && nextId == 1
    {
      contacts := [];
      nextId := 1;
    }

    /** POST /contacts/: store `data` under a fresh identifier and return the new record. */
    method Create(data: ContactBase) returns (c: Contact)
      requires Valid()
      modifies this
      ensures Valid()
      ensures c.Base() == data && c.id == old(nextId)
      ensures forall d :: d in old(contacts) ==> d.id != c.id
      ensures contacts == old(contacts) + [c] && nextId == old(nextId) + 1
      ensures FindById(contacts, c.id) == Ok(c)
      ensures forall k :: k != c.id ==> FindById(contacts, k) == FindById(old(contacts), k)
    {
      c := WithId(nextId, data);
      forall k ensures FindById(contacts + [c], k) == if k == c.id then Ok(c) else FindById(contacts, k) {
        FindAfterAppend(contacts, c, k);
      }
      contacts := contacts + [c];
      nextId := nextId + 1;
    }

    /** PUT /contacts/{id}: overwrite every submitted field of the record
        with identifier `id`, keeping the identifier and its position. */
    method Update(id: int, data: ContactBase) returns (r: Result<Contact>)
      requires Valid()
      modifies this
      ensures Valid() && nextId == old(nextId)
      ensures match IndexOf(old(contacts), id)
        case None => r == NotFound && contacts == old(contacts)
        case Some(i) => r == Ok(WithId(id, data)) && contacts == old(contacts)[i := WithId(id, data)]
      ensures r.NotFound? <==> FindById(old(contacts), id) == NotFound
      ensures r.Ok? ==> FindById(contacts, id) == r
      ensures forall k :: k != id ==> FindById(contacts, k) == FindById(old(contacts), k)
    {
      match IndexOf(contacts, id)
      case None =>
        r := NotFound;
      case Some(i) =>
        var c := contacts[i];
        c := c.(name := data.name, surname := data.surname, email := data.email,
                phoneNumber := data.phoneNumber, birthday := data.birthday,
                additionalInfo := data.additionalInfo);
        assert c == WithId(id, data);
        forall k ensures FindById(contacts[i := c], k) == if k == id then Ok(c) else FindById(contacts, k) {
          FindAfterReplace(contacts, i, c, k);
        }
        assert forall d :: d in contacts[i := c] ==> d == c || d in contacts;
        contacts := contacts[i := c];
        r := Ok(c);
    }

    /** DELETE /contacts/{id}: remove the record with identifier `id` and
        return it as it was. */
    method Delete(id: int) returns (r: Result<Contact>)
      requires Valid()
      modifies this
      ensures Valid() && nextId == old(nextId)
      ensures match IndexOf(old(contacts), id)
        case None => r == NotFound && contacts == old(contacts)
        case Some(i) => r == Ok(old(contacts)[i]) && contacts == old(contacts)[..i] + old(contacts)[i + 1..]
      ensures r == FindById(old(contacts), id)
      ensures FindById(contacts, id) == NotFound
      ensures forall k :: k != id ==> FindById(contacts, k) == FindById(old(contacts), k)
    {
      match IndexOf(contacts, id)
      case None =>
        r := NotFound;
      case Some(i) =>
        r := Ok(contacts[i]);
        forall k ensures FindById(contacts[..i] + contacts[i + 1..], k) ==
          if k == id then NotFound else FindById(contacts, k) {
          FindAfterRemove(contacts, i, k);
        }
        RemoveKeepsOthers(contacts, i);
        contacts := contacts[..i] + contacts[i + 1..];
    }
  }
}
