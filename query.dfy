/** The two searches of the lookup page and the regional lookup used when a
    contact card is drawn. They read the stored snapshot (`compdecData`,
    `repdecData`), which is passed in here as the two row lists. */
module Query {
  import opened Wrappers
  import opened Text
  import opened Normalization
  import opened Seqs
  import opened Csv
  import opened Store

  /** `performSearch` either refuses for lack of criteria (it only shows a
      hint) or lists the matching contacts. */
  datatype SearchOutcome = NoCriteria | Matches(found: seq<Record>)

  /** `performRegionalSearch` either refuses for lack of a regional or hands
      the regional's record (if any) and its contacts to the display. */
  datatype RegionalOutcome =
    | NoRegional
    | RegionalMatch(regionalInfo: Option<Record>, regionalContacts: seq<Record>)

  /** `normalizeString(nameInput.value.trim())`. */
  function NameQuery(nameInput: string): (r: string)
    ensures AllWhitespace(nameInput) ==> r == ""
    ensures forall i :: 0 <= i < |r| ==> !IsCombiningMark(r[i])
  {
    TrimSpec(nameInput);
    Normalize(Trim(nameInput))
  }

  /** The filter callback of `performSearch`: the normalised coordinator name
      contains the query, when there is one, and the municipality is the
      selected city, when one is selected. */
  predicate ContactMatches(contact: Record, nameQuery: string, cityQuery: string)
    ensures nameQuery == "" && cityQuery == "" ==> ContactMatches(contact, nameQuery, cityQuery)
    ensures ContactMatches(contact, nameQuery, cityQuery) && cityQuery != "" ==> Get(contact, "Municipio") == Some(cityQuery)
  {
    var coordinatorName := NormalizeField(Get(contact, "Coordenador"));
    var cityName := match Get(contact, "Municipio") case Some(m) => m case None => "";
    (nameQuery != "" ==> Contains(coordinatorName, nameQuery))
    && (cityQuery != "" ==> cityName == cityQuery)
  }

  /** `performSearch`: with neither a name nor a city it refuses; otherwise it
      lists, in stored order, every contact whose normalised coordinator name
      contains the normalised name (when one is given) and whose `Municipio`
      is the selected city (when one is given), and no other contact. */
  function SearchContacts(contacts: seq<Record>, nameInput: string, cityQuery: string): (r: SearchOutcome)
    ensures r.NoCriteria? <==> NameQuery(nameInput) == "" && cityQuery == ""
    ensures r.Matches? ==> IsSubsequence(r.found, contacts)
    ensures r.Matches? ==> forall c :: c in r.found <==> (
      && c in contacts
      && (NameQuery(nameInput) != "" ==> exists i :: OccursAt(NormalizeField(Get(c, "Coordenador")), NameQuery(nameInput), i))
      && (cityQuery != "" ==> Get(c, "Municipio") == Some(cityQuery)))
    ensures r.Matches? ==> forall c :: c in contacts && ContactMatches(c, NameQuery(nameInput), cityQuery) ==>
      multiset(r.found)[c] == multiset(contacts)[c]
  {
    var nameQuery := NameQuery(nameInput);
    if nameQuery == "" && cityQuery == "" then NoCriteria
    else
      var p := (c: Record) => ContactMatches(c, nameQuery, cityQuery);
      var found := Filter(contacts, p);
      FilterSpec(contacts, p);
      forall c ensures ContactMatches(c, nameQuery, cityQuery) <==>
        (nameQuery != "" ==> exists i :: OccursAt(NormalizeField(Get(c, "Coordenador")), nameQuery, i))
        && (cityQuery != "" ==> Get(c, "Municipio") == Some(cityQuery))
      {
        ContainsAt(NormalizeField(Get(c, "Coordenador")), nameQuery);
      }
      Matches(found)
  }

  /** `repdecData.find(r => r.REPDEC === key)`: the first regional whose
      `REPDEC` is `key`, or `None` when no regional has it. */
  function FindRegional(regionals: seq<Record>, key: Option<string>): (r: Option<Record>)
    ensures r.None? <==> forall i :: 0 <= i < |regionals| ==> Get(regionals[i], "REPDEC") != key
    ensures r.Some? ==> r.value in regionals && Get(r.value, "REPDEC") == key
  {
    if regionals == [] then None
    else if Get(regionals[0], "REPDEC") == key then Some(regionals[0])
    else
      var r := FindRegional(regionals[1..], key);
      assert forall i :: 0 < i < |regionals| ==> regionals[i] == regionals[1..][i - 1];
      r
  }

  /** The regional `FindRegional` returns is the first match: every regional
      before it has another key. */
  lemma {:induction false} FindRegionalFirst(regionals: seq<Record>, key: Option<string>, i: nat)
    requires i < |regionals| && Get(regionals[i], "REPDEC") == key
    requires forall j :: 0 <= j < i ==> Get(regionals[j], "REPDEC") != key
    ensures FindRegional(regionals, key) == Some(regionals[i])
  {
    if i > 0 {
      FindRegionalFirst(regionals[1..], key, i - 1);
    }
  }

  /** The regional shown on a contact's card (the `find` of `displayResults`):
      the first regional whose `REPDEC` equals the contact's. */
  function RegionalOf(regionals: seq<Record>, contact: Record): (r: Option<Record>)
    ensures r.None? <==> forall i :: 0 <= i < |regionals| ==> Get(regionals[i], "REPDEC") != Get(contact, "REPDEC")
    ensures r.Some? ==> r.value in regionals && Get(r.value, "REPDEC") == Get(contact, "REPDEC")
  {
    FindRegional(regionals, Get(contact, "REPDEC"))
  }

  /** `performRegionalSearch`: with no regional selected it refuses;
      otherwise it gives the first regional record with that `REPDEC` and,
      in stored order, exactly the contacts whose `REPDEC` is the selection. */
  function SearchRegional(contacts: seq<Record>, regionals: seq<Record>, regionalQuery: string): (r: RegionalOutcome)
    ensures r.NoRegional? <==> regionalQuery == ""
    ensures r.RegionalMatch? ==> r.regionalInfo == FindRegional(regionals, Some(regionalQuery))
    ensures r.RegionalMatch? ==> IsSubsequence(r.regionalContacts, contacts)
    ensures r.RegionalMatch? ==> forall c :: c in r.regionalContacts <==> c in contacts && Get(c, "REPDEC") == Some(regionalQuery)
    ensures r.RegionalMatch? ==> forall c :: Get(c, "REPDEC") == Some(regionalQuery) ==>
      multiset(r.regionalContacts)[c] == multiset(contacts)[c]
  {
    if regionalQuery == "" then NoRegional
    else
      var p := (c: Record) => Get(c, "REPDEC") == Some(regionalQuery);
      FilterSpec(contacts, p);
      RegionalMatch(FindRegional(regionals, Some(regionalQuery)), Filter(contacts, p))
  }

  /** The card of every contact found by a regional search shows the same
      regional record as the search itself: the join agrees in both
      directions. */
  lemma RegionalJoinAgrees(contacts: seq<Record>, regionals: seq<Record>, regionalQuery: string)
    requires regionalQuery != ""
    ensures forall c :: c in SearchRegional(contacts, regionals, regionalQuery).regionalContacts ==>
      RegionalOf(regionals, c) == SearchRegional(contacts, regionals, regionalQuery).regionalInfo
  {
  }

  /** When every stored regional has a non-empty `REPDEC` (as loading
      ensures), a contact without a regional name has no regional card. */
  lemma NoRegionalWithoutKey(regionals: seq<Record>, contact: Record)
    requires forall i :: 0 <= i < |regionals| ==> Truthy(Get(regionals[i], "REPDEC"))
    requires !Truthy(Get(contact, "REPDEC"))
    ensures RegionalOf(regionals, contact).None?
  {
  }

  /** The card lookup of line 259 on a loaded store: a stored contact whose
      `REPDEC` is missing or empty shows no regional, because every stored
      regional row passed the `REPDEC` filter. */
  lemma StoredContactWithoutRegional(store: ContactStore, i: int)
    requires store.Valid()
    requires 0 <= i < |store.contacts|
    requires !Truthy(Get(store.contacts[i], "REPDEC"))
    ensures RegionalOf(store.regionals, store.contacts[i]).None?
  {
    forall k | 0 <= k < |store.regionals|
      ensures Truthy(Get(store.regionals[k], "REPDEC"))
    {
      assert Keep(Repdec, store.regionals[k]);
    }
    NoRegionalWithoutKey(store.regionals, store.contacts[i]);
  }
}
