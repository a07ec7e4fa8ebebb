/**
  The browse page (`index` in app.py): every stored item, or, when the
  `search` argument holds something besides whitespace, the items whose
  category the database's `contains` test accepts.
*/
module Browse {
  import opened Text
  import opened SqlLike
  import opened Catalog
  import opened Upload

  /** The rows `Item.category.contains(q)` keeps, in the order given: each
      matching row as often as it is stored, no other row. */
  function Search(rows: seq<Item>, q: string): (r: seq<Item>)
    ensures forall x :: multiset(r)[x] ==
                        if Like(x.category, ContainsPattern(q)) then multiset(rows)[x] else 0
    ensures forall x :: x in r <==> x in rows && Like(x.category, ContainsPattern(q))
    ensures multiset(r) <= multiset(rows)
  {
    if rows == [] then []
    else
      assert rows == [rows[0]] + rows[1..];
      var rest := Search(rows[1..], q);
      if Like(rows[0].category, ContainsPattern(q)) then [rows[0]] + rest else rest
  }

  /** `index`: the stripped `search` argument selects the rows when it is
      non-empty; otherwise all rows are listed. */
  function Browse(rows: seq<Item>, search: string): seq<Item> {
    var q := Strip(search);
    if q != [] then Search(rows, q) else rows
  }

  /** Whatever the search, the page lists only stored rows, none more often
      than it is stored. */
  lemma BrowseIsSubset(rows: seq<Item>, search: string)
    ensures multiset(Browse(rows, search)) <= multiset(rows)
    ensures forall x :: x in Browse(rows, search) ==> x in rows
  {
  }

  /** An absent, empty or whitespace-only search lists every row. */
  lemma BlankSearchListsAll(rows: seq<Item>, search: string)
    requires IsBlank(search)
    ensures Browse(rows, search) == rows
  {
  }

  /** Any other search lists exactly the rows whose category matches the
      stripped search under LIKE, each as often as it is stored. */
  lemma SearchListsMatches(rows: seq<Item>, search: string)
    requires !IsBlank(search)
    ensures forall x :: multiset(Browse(rows, search))[x] ==
                        if Like(x.category, ContainsPattern(Strip(search))) then multiset(rows)[x] else 0
    ensures forall x :: x in Browse(rows, search) <==>
                        x in rows && Like(x.category, ContainsPattern(Strip(search)))
  {
  }

  /** When the stripped search holds no `%` or `_`, that is: exactly the rows
      whose category contains it, letter case aside, each as often as it is
      stored. */
  lemma SearchIsSubstringMatch(rows: seq<Item>, search: string)
    requires !IsBlank(search)
    requires forall k :: 0 <= k < |Strip(search)| ==> !IsWildcard(Strip(search)[k])
    ensures forall x :: multiset(Browse(rows, search))[x] ==
                        if ContainsIgnoringCase(x.category, Strip(search)) then multiset(rows)[x] else 0
    ensures forall x :: x in Browse(rows, search) <==>
                        x in rows && ContainsIgnoringCase(x.category, Strip(search))
  {
    SearchListsMatches(rows, search);
    forall x: Item
      ensures Like(x.category, ContainsPattern(Strip(search))) <==> ContainsIgnoringCase(x.category, Strip(search))
    {
      ContainsPatternMeaning(x.category, Strip(search));
    }
  }

  /** A row whose category holds the stripped search verbatim is always
      listed, whatever characters the search holds. */
  lemma LiteralMatchIsListed(rows: seq<Item>, search: string, x: Item)
    requires x in rows && ContainsLiterally(x.category, Strip(search))
    ensures x in Browse(rows, search)
  {
    if Strip(search) != [] {
      LiteralIsIgnoringCase(x.category, Strip(search));
      ContainsPatternMeaning(x.category, Strip(search));
    }
  }

  /** The rows of a listing hold exactly the items the table stores, in any
      order and with any repetition. */
  ghost predicate ListsTable(rows: seq<Item>, t: Table) {
    forall x :: x in rows <==> x in t.Values
  }

  /** An item just added shows up when browsing with a search its category
      holds verbatim. */
  lemma AddedItemIsFound(t: Table, form: ItemForm, image: FilePart, id: nat,
                         rows: seq<Item>, search: string)
    requires id !in t && AllowedFile(image.filename)
    requires ListsTable(rows, AddStep(t, form, image, id).table)
    requires ContainsLiterally(form.category, Strip(search))
    ensures NewItem(form, image.data) in Browse(rows, search)
  {
    var added := AddStep(t, form, image, id).table;
    assert added[id] == NewItem(form, image.data);
    assert NewItem(form, image.data) in added.Values;
    LiteralMatchIsListed(rows, search, NewItem(form, image.data));
  }
}
