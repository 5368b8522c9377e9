/**
 * The dashboard's card list: the documents of `cards` as plain objects and
 * the search box's filter over them.
 */
module Dashboard {
  import opened JsValues
  import opened Seqs
  import opened Text
  import opened Store

  /** The fields the search box looks at, in the order they are tried. */
  const SearchFields: seq<string> :=
    ["serialNo", "employeeCode", "employeeName", "cnic", "vehicleNo", "designation", "region", "inspectionId"]

  /** `{ id: doc.id, ...doc.data() }`: the document's fields, plus its id
      unless the data has an `id` field of its own (the spread comes last). */
  function CardOfDoc(d: Doc): (card: Record)
    ensures "id" in card
    ensures forall k :: k in d.data ==> k in card && card[k] == d.data[k]
    ensures "id" !in d.data ==> card["id"] == Str(d.id)
    ensures card.Keys == d.data.Keys + {"id"}
  {
    map["id" := Str(d.id)] + d.data
  }

  /** `card[field]?.toLowerCase().includes(search)`, with `search` already
      lower-cased: an absent, `null` or non-text field does not match. */
  predicate FieldMatches(card: Record, field: string, search: string) {
    var v := Get(card, field);
    v.Str? && Includes(Lower(v.s), search)
  }

  /** The `||` chain over `fields`, tried left to right. */
  predicate AnyFieldMatches(card: Record, fields: seq<string>, search: string) {
    if fields == [] then false
    else FieldMatches(card, fields[0], search) || AnyFieldMatches(card, fields[1..], search)
  }

  /** The callback given to `cards.filter`: everything passes an empty
      search term, otherwise one of the search fields must contain it. */
  predicate KeepCard(card: Record, term: string) {
    term == "" || AnyFieldMatches(card, SearchFields, Lower(term))
  }

  function Keep(term: string): Record -> bool {
    card => KeepCard(card, term)
  }

  /** `filteredCards`. */
  function FilterCards(cards: seq<Record>, term: string): (r: seq<Record>)
    ensures IsSubsequence(r, cards)
    ensures |r| <= |cards|
    ensures forall c :: c in r <==> c in cards && KeepCard(c, term)
  {
    Filter(cards, Keep(term))
  }

  /** The chain succeeds exactly when some listed field contains the text. */
  lemma {:induction false} AnyFieldMatchesIff(card: Record, fields: seq<string>, search: string)
    ensures AnyFieldMatches(card, fields, search) <==>
      exists i :: 0 <= i < |fields| && FieldMatches(card, fields[i], search)
  {
    if fields != [] {
      AnyFieldMatchesIff(card, fields[1..], search);
      if exists i :: 0 <= i < |fields| && FieldMatches(card, fields[i], search) {
        var i :| 0 <= i < |fields| && FieldMatches(card, fields[i], search);
        if i > 0 {
          assert fields[1..][i - 1] == fields[i];
        }
      }
      if AnyFieldMatches(card, fields[1..], search) {
        var i :| 0 <= i < |fields[1..]| && FieldMatches(card, fields[1..][i], search);
        assert fields[i + 1] == fields[1..][i];
      }
    }
  }

  /** Reference reading of one field: it holds text whose lower-cased form
      has `search` at some offset. */
  ghost predicate FieldOccurs(card: Record, field: string, search: string) {
    Get(card, field).Str? && exists i :: OccursAt(Lower(Get(card, field).s), search, i)
  }

  lemma FieldMatchesIffOccurs(card: Record, field: string, search: string)
    ensures FieldMatches(card, field, search) <==> FieldOccurs(card, field, search)
  {
    if Get(card, field).Str? {
      IncludesIffOccurs(Lower(Get(card, field).s), search);
    }
  }

  /** Some field of the list holds text containing `search`. */
  lemma {:induction false} SomeFieldOccurs(card: Record, fields: seq<string>, search: string)
    ensures AnyFieldMatches(card, fields, search) <==> exists f :: f in fields && FieldOccurs(card, f, search)
  {
    if fields != [] {
      SomeFieldOccurs(card, fields[1..], search);
      FieldMatchesIffOccurs(card, fields[0], search);
      if AnyFieldMatches(card, fields, search) {
        if FieldMatches(card, fields[0], search) {
          assert fields[0] in fields;
        } else {
          var f :| f in fields[1..] && FieldOccurs(card, f, search);
          assert f in fields;
        }
      }
      if exists f :: f in fields && FieldOccurs(card, f, search) {
        var f :| f in fields && FieldOccurs(card, f, search);
        if f != fields[0] {
          assert f in fields[1..];
        }
      }
    }
  }

  /** A card is in the result exactly when it is in the list and either the
      term is empty or the lower-cased term occurs in the lower-cased text of
      one of the eight search fields. */
  lemma KeptIff(cards: seq<Record>, term: string, card: Record)
    ensures card in FilterCards(cards, term) <==>
      card in cards && (term == "" || exists f :: f in SearchFields && FieldOccurs(card, f, Lower(term)))
  {
    SomeFieldOccurs(card, SearchFields, Lower(term));
  }

  /** An empty search term shows the whole list. */
  lemma EmptyTermKeepsAll(cards: seq<Record>)
    ensures FilterCards(cards, "") == cards
  {
    FilterKeepsAll(cards, Keep(""));
  }

  /** Fields outside the listed ones never change the outcome. */
  lemma {:induction false} OnlyListedFieldsMatter(a: Record, b: Record, fields: seq<string>, search: string)
    requires forall f :: f in fields ==> Get(a, f) == Get(b, f)
    ensures AnyFieldMatches(a, fields, search) == AnyFieldMatches(b, fields, search)
  {
    if fields != [] {
      assert fields[0] in fields;
      OnlyListedFieldsMatter(a, b, fields[1..], search);
    }
  }

  /** Two cards that agree on the eight search fields are kept or dropped
      together, whatever else they hold. */
  lemma OnlySearchFieldsMatter(a: Record, b: Record, term: string)
    requires forall f :: f in SearchFields ==> Get(a, f) == Get(b, f)
    ensures KeepCard(a, term) == KeepCard(b, term)
  {
    OnlyListedFieldsMatter(a, b, SearchFields, Lower(term));
  }

  /** A card holding none of the eight fields shows only for an empty term. */
  lemma AbsentFieldsNeverMatch(card: Record, term: string)
    requires forall f :: f in SearchFields ==> f !in card
    ensures KeepCard(card, term) <==> term == ""
  {
    AnyFieldMatchesIff(card, SearchFields, Lower(term));
  }

  /** Searching the search result again with the same term changes nothing. */
  lemma FilterTwice(cards: seq<Record>, term: string)
    ensures FilterCards(FilterCards(cards, term), term) == FilterCards(cards, term)
  {
    FilterIdempotent(cards, Keep(term));
  }

  /** The term's letter case does not matter. */
  lemma TermCaseIgnored(cards: seq<Record>, term: string)
    ensures FilterCards(cards, Lower(term)) == FilterCards(cards, term)
  {
    LowerIdempotent(term);
    assert Lower(term) == "" <==> term == "";
    forall card | card in cards ensures Keep(Lower(term))(card) == Keep(term)(card) {
      assert KeepCard(card, Lower(term)) == KeepCard(card, term);
    }
    FilterCongruent(cards, Keep(Lower(term)), Keep(term));
  }

  /** Neither does the letter case of the stored text. */
  lemma StoredCaseIgnored(card: Record, field: string, s: string, term: string)
    requires field in card && card[field] == Str(s)
    ensures FieldMatches(card, field, Lower(term)) == FieldMatches(card[field := Str(Lower(s))], field, Lower(term))
  {
    LowerIdempotent(s);
  }
}
