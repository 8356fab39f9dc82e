/** The book catalogue of `main.py`: an ordered list of book records kept in
    one document that every operation reads whole and, when it succeeds,
    writes back whole. */
module Library {
  import opened Wrappers
  import opened Text
  import opened Lists

  // ---------------------------------------------------------------------------
  // Records
  // ---------------------------------------------------------------------------

  /** The two status labels the catalogue accepts: "available" and
      "checked out". */
  const Available: string := "в наличии"
  const Issued: string := "выдана"

  predicate IsStatus(s: string)
    ensures IsStatus(s) <==> s in {Available, Issued}
  {
    s == Available || s == Issued
  }

  /** One entry of the document. The status is whatever text the document
      holds; only `ChangeStatus` checks it against the two labels. */
  datatype Book = Book(id: string, title: string, author: string, year: int, status: string)

  predicate HasId(books: seq<Book>, id: string) {
    exists i :: 0 <= i < |books| && books[i].id == id
  }

  /** The catalogue's intended invariant: no id occurs twice. */
  ghost predicate DistinctIds(books: seq<Book>) {
    forall i, j :: 0 <= i < j < |books| ==> books[i].id != books[j].id
  }

  // ---------------------------------------------------------------------------
  // add_book
  // ---------------------------------------------------------------------------

  /** The `year` argument of `add_book`: an int (as the tests pass it) or the
      text typed at the menu. */
  datatype YearArg = YearInt(n: int) | YearText(text: string)

  /** `int(year)`; `None` where Python raises `ValueError`. */
  function ParseYear(year: YearArg): (r: Option<int>)
    ensures year.YearInt? ==> r == Some(year.n)
  {
    match year
    case YearInt(n) => Some(n)
    case YearText(text) => ParseInt(text)
  }

  /** A year typed the way `str` prints it is accepted with its value. */
  lemma ParseYearAcceptsRendering(n: int)
    ensures ParseYear(YearText(IntToString(n))) == Some(n)
  {
    ParseIntRoundTrip(n);
  }

  /** Appending a record whose id is not yet used keeps the ids distinct. */
  lemma AppendKeepsDistinct(books: seq<Book>, b: Book)
    requires DistinctIds(books) && !HasId(books, b.id)
    ensures DistinctIds(books + [b])
  {
    var after := books + [b];
    forall i, j | 0 <= i < j < |after| ensures after[i].id != after[j].id {
      if j == |books| {
        assert after[i] == books[i];
      }
    }
  }

  // ---------------------------------------------------------------------------
  // delete_book
  // ---------------------------------------------------------------------------

  function IdIsNot(id: string): Book -> bool {
    (b: Book) => b.id != id
  }

  /** `[book for book in books if book['id'] != book_id]`. */
  function Remaining(books: seq<Book>, id: string): (r: seq<Book>)
    ensures forall b :: b in r ==> b in books && b.id != id
    ensures forall b :: b in books ==> (b in r <==> b.id != id)
    ensures IsSubsequence(r, books)
    ensures HasId(books, id) <==> |r| < |books|
    ensures !HasId(books, id) ==> r == books
  {
    FilterIsSubsequence(books, IdIsNot(id));
    FilterKeepsAll(books, IdIsNot(id));
    Filter(books, IdIsNot(id))
  }

  /** A record whose id differs is kept as many times as the document holds
      it, a record with the id never: together with the order kept
      (`Remaining`'s contract) these are exactly the records that survive. */
  lemma RemainingMultiplicity(books: seq<Book>, id: string, b: Book)
    ensures multiset(Remaining(books, id))[b] == if b.id != id then multiset(books)[b] else 0
  {
    FilterMultiplicity(books, IdIsNot(id), b);
  }

  lemma DistinctTail(books: seq<Book>)
    requires books != [] && DistinctIds(books)
    ensures DistinctIds(books[1..]) && !HasId(books[1..], books[0].id)
  {
    var rest := books[1..];
    forall i, j | 0 <= i < j < |rest| ensures rest[i].id != rest[j].id {
      assert rest[i] == books[i + 1] && rest[j] == books[j + 1];
    }
    forall k | 0 <= k < |rest| ensures rest[k].id != books[0].id {
      assert rest[k] == books[k + 1];
    }
  }

  lemma DistinctCons(b: Book, rest: seq<Book>)
    requires DistinctIds(rest) && !HasId(rest, b.id)
    ensures DistinctIds([b] + rest)
  {
    var all := [b] + rest;
    forall i, j | 0 <= i < j < |all| ensures all[i].id != all[j].id {
      assert all[j] == rest[j - 1];
      if i > 0 {
        assert all[i] == rest[i - 1];
      }
    }
  }

  /** Removing records never makes two ids equal. */
  lemma {:induction false} RemainingKeepsDistinct(books: seq<Book>, id: string)
    requires DistinctIds(books)
    ensures DistinctIds(Remaining(books, id))
    decreases |books|
  {
    if books != [] {
      var rest := books[1..];
      DistinctTail(books);
      RemainingKeepsDistinct(rest, id);
      var tail := Remaining(rest, id);
      if books[0].id != id {
        forall k | 0 <= k < |tail| ensures tail[k].id != books[0].id {
          assert tail[k] in rest;
        }
        DistinctCons(books[0], tail);
        assert Remaining(books, id) == [books[0]] + tail;
      } else {
        assert Remaining(books, id) == tail;
      }
    }
  }

  // ---------------------------------------------------------------------------
  // find_books
  // ---------------------------------------------------------------------------

  /** The fields a search may look at. */
  datatype Field = Title | Author | Year

  /** The field argument of `find_books`: empty means the title, the three
      field names select their field, anything else is refused. */
  function SearchField(field: string): (r: Option<Field>)
    ensures field == "" ==> r == Some(Title)
    ensures r == None <==> field !in {"", "title", "author", "year"}
    ensures r == Some(Author) <==> field == "author"
    ensures r == Some(Year) <==> field == "year"
  {
    if field == "" || field == "title" then Some(Title)
    else if field == "author" then Some(Author)
    else if field == "year" then Some(Year)
    else None
  }

  /** `str(book[field])`: the text fields as they are, the year printed so
      that `int` reads it back. */
  function FieldText(b: Book, f: Field): (r: string)
    ensures f == Title ==> r == b.title
    ensures f == Author ==> r == b.author
    ensures f == Year ==> r == IntToString(b.year) && ParseInt(r) == Some(b.year)
  {
    ParseIntRoundTrip(b.year);
    match f
    case Title => b.title
    case Author => b.author
    case Year => IntToString(b.year)
  }

  /** `str(query).lower() in str(book[field]).lower()`. */
  predicate Matches(b: Book, f: Field, query: string)
    ensures query == "" ==> Matches(b, f, query)
  {
    Contains(Lower(FieldText(b, f)), Lower(query))
  }

  /** A record matches exactly when the lowered query occurs somewhere in
      its lowered field text. */
  lemma MatchesIffOccurs(b: Book, f: Field, query: string)
    ensures Matches(b, f, query) <==> exists i :: OccursAt(Lower(FieldText(b, f)), Lower(query), i)
  {
    var text, q := Lower(FieldText(b, f)), Lower(query);
    ContainsIffOccurs(text, q);
    if Matches(b, f, query) {
      var i :| OccursAt(text, q, i);
      assert OccursAt(Lower(FieldText(b, f)), Lower(query), i);
    }
  }

  function MatchesQuery(f: Field, query: string): Book -> bool {
    (b: Book) => Matches(b, f, query)
  }

  /** The list `find_books` returns for a given document. */
  function Find(books: seq<Book>, query: string, field: string): (r: seq<Book>)
    ensures SearchField(field) == None ==> r == []
    ensures IsSubsequence(r, books)
    ensures forall b :: b in r ==> b in books && Matches(b, SearchField(field).value, query)
    ensures SearchField(field).Some? ==>
      forall b :: b in books ==> (b in r <==> Matches(b, SearchField(field).value, query))
  {
    match SearchField(field)
    case None => []
    case Some(f) =>
      FilterIsSubsequence(books, MatchesQuery(f, query));
      Filter(books, MatchesQuery(f, query))
  }

  /** For a valid field the result holds every matching record exactly as
      many times as the document does, and nothing else: together with the
      order kept (`Find`'s contract) it is the document's matching records. */
  lemma FindMultiplicity(books: seq<Book>, query: string, field: string, b: Book)
    requires SearchField(field).Some?
    ensures multiset(Find(books, query, field))[b] ==
      if Matches(b, SearchField(field).value, query) then multiset(books)[b] else 0
  {
    FilterMultiplicity(books, MatchesQuery(SearchField(field).value, query), b);
  }

  /** The search ignores the case of the query. */
  lemma FindIgnoresQueryCase(books: seq<Book>, query: string, field: string)
    ensures Find(books, Lower(query), field) == Find(books, query, field)
  {
    LowerIdempotent(query);
    if SearchField(field).Some? {
      var f := SearchField(field).value;
      FilterSameCondition(books, MatchesQuery(f, Lower(query)), MatchesQuery(f, query));
    }
  }

  /** An empty field name searches the titles. */
  lemma FindDefaultsToTitle(books: seq<Book>, query: string)
    ensures Find(books, query, "") == Find(books, query, "title")
  {
  }

  /** The search over a two-record document, record by record. */
  lemma FindPair(a: Book, b: Book, query: string, field: string)
    requires SearchField(field).Some?
    ensures var f := SearchField(field).value;
      Find([a, b], query, field) ==
        (if Matches(a, f, query) then [a] else []) + (if Matches(b, f, query) then [b] else [])
  {
    FilterPair(a, b, MatchesQuery(SearchField(field).value, query));
  }

  /** The two-record document of the search tests. */
  function SampleBooks(id1: string, id2: string): seq<Book> {
    [Book(id1, "Book 1", "Author 1", 2000, Available),
     Book(id2, "Book 2", "Author 2", 2001, Available)]
  }

  /** Searching the sample by title finds exactly the record the query names. */
  lemma FindSampleByTitle(id1: string, id2: string)
    ensures Find(SampleBooks(id1, id2), "Book 1", "title") == [SampleBooks(id1, id2)[0]]
  {
    var books := SampleBooks(id1, id2);
    assert Lower("Book 2")[5] != Lower("Book 1")[5];
    ContainsSameLength(Lower("Book 1"), Lower("Book 1"));
    ContainsSameLength(Lower("Book 2"), Lower("Book 1"));
    FindPair(books[0], books[1], "Book 1", "title");
  }

  /** The same search with the query in lower case and the field left empty
      finds the same record. */
  lemma FindSampleLowerCaseDefaultField(id1: string, id2: string)
    ensures Find(SampleBooks(id1, id2), "book 1", "") == [SampleBooks(id1, id2)[0]]
  {
    var books := SampleBooks(id1, id2);
    FindSampleByTitle(id1, id2);
    LowerBook1();
    FindIgnoresQueryCase(books, "Book 1", "title");
    FindDefaultsToTitle(books, "book 1");
  }

  lemma LowerBook1()
    ensures Lower("Book 1") == "book 1"
  {
  }

  /** Searching the sample by author finds exactly the record the query names. */
  lemma FindSampleByAuthor(id1: string, id2: string)
    ensures Find(SampleBooks(id1, id2), "Author 2", "author") == [SampleBooks(id1, id2)[1]]
  {
    var books := SampleBooks(id1, id2);
    assert Lower("Author 1")[7] != Lower("Author 2")[7];
    ContainsSameLength(Lower("Author 1"), Lower("Author 2"));
    ContainsSameLength(Lower("Author 2"), Lower("Author 2"));
    FindPair(books[0], books[1], "Author 2", "author");
  }

  /** Searching the sample by year compares the printed year. */
  lemma FindSampleByYear(id1: string, id2: string)
    ensures Find(SampleBooks(id1, id2), "2000", "year") == [SampleBooks(id1, id2)[0]]
  {
    var books := SampleBooks(id1, id2);
    assert IntToString(2000) == "2000" && IntToString(2001) == "2001";
    assert Lower("2001")[3] != Lower("2000")[3];
    ContainsSameLength(Lower("2000"), Lower("2000"));
    ContainsSameLength(Lower("2001"), Lower("2000"));
    FindPair(books[0], books[1], "2000", "year");
  }

  /** An unknown field finds nothing, whatever the document holds. */
  lemma FindSampleUnknownField(id1: string, id2: string)
    ensures Find(SampleBooks(id1, id2), "Test", "test") == []
  {
  }

  // ---------------------------------------------------------------------------
  // change_status
  // ---------------------------------------------------------------------------

  /** Index of the first record carrying `id`, the one the loop of
      `change_status` stops at. */
  function FirstWithId(books: seq<Book>, id: string): (r: Option<nat>)
    ensures r.None? <==> !HasId(books, id)
    ensures r.Some? ==> r.value < |books| && books[r.value].id == id
    ensures r.Some? ==> forall j :: 0 <= j < r.value ==> books[j].id != id
  {
    if books == [] then None
    else if books[0].id == id then Some(0)
    else match FirstWithId(books[1..], id)
      case None => None
      case Some(k) => Some(k + 1)
  }

  /** The document after the status of record `k` is overwritten. */
  function SetStatus(books: seq<Book>, k: nat, status: string): (r: seq<Book>)
    requires k < |books|
    ensures |r| == |books|
    ensures r[k].status == status
    ensures r[k].(status := books[k].status) == books[k]
    ensures forall j :: 0 <= j < |books| && j != k ==> r[j] == books[j]
  {
    books[k := books[k].(status := status)]
  }

  /** Overwriting a status never touches an id. */
  lemma SetStatusKeepsDistinct(books: seq<Book>, k: nat, status: string)
    requires k < |books| && DistinctIds(books)
    ensures DistinctIds(SetStatus(books, k, status))
  {
    var r := SetStatus(books, k, status);
    assert forall j :: 0 <= j < |r| ==> r[j].id == books[j].id;
  }

  /** What `change_status` reports. */
  datatype StatusOutcome = Changed | InvalidStatus | NotFound

  // ---------------------------------------------------------------------------
  // The stored document
  // ---------------------------------------------------------------------------

  /** The document behind `DATABASE_PATH`. `books` is its content; `writes`
      counts how often it has been rewritten, so that a path that does not
      save is visible as one. */
  class Catalogue {
    var books: seq<Book>
    var writes: nat

    /** No document yet: `load_data` reads it as an empty list. */
    constructor ()
      ensures books == [] && writes == 0
    {
      books := [];
      writes := 0;
    }

    /** `load_data`: the whole list. */
    function Load(): (bs: seq<Book>)
      reads this
      ensures bs == books
    {
      books
    }

    /** `save_data`: the list replaces the document. */
    method Save(bs: seq<Book>)
      modifies this
      ensures Load() == bs && writes == old(writes) + 1
    {
      books := bs;
      writes := writes + 1;
    }

    /** `add_book`: `freshId` stands for `str(uuid4())`. */
    method AddBook(title: string, author: string, year: YearArg, freshId: string) returns (id: Option<string>)
      modifies this
      ensures ParseYear(year).None? ==> id == None && books == old(books) && writes == old(writes)
      ensures ParseYear(year).Some? ==>
        id == Some(freshId) && writes == old(writes) + 1 &&
        books == old(books) + [Book(freshId, title, author, ParseYear(year).value, Available)]
      ensures DistinctIds(old(books)) && !HasId(old(books), freshId) ==> DistinctIds(books)
    {
      var bs := Load();
      var y := ParseYear(year);
      if y.None? {
        return None;
      }
      var b := Book(freshId, title, author, y.value, Available);
      if DistinctIds(bs) && !HasId(bs, freshId) {
        AppendKeepsDistinct(bs, b);
      }
      bs := bs + [b];
      Save(bs);
      id := Some(freshId);
    }

    /** `delete_book`: `deleted` tells which of the two messages is printed. */
    method DeleteBook(id: string) returns (deleted: bool)
      modifies this
      ensures deleted <==> HasId(old(books), id)
      ensures deleted ==> books == Remaining(old(books), id) && writes == old(writes) + 1
      ensures deleted ==> |books| < |old(books)|
      ensures !deleted ==> books == old(books) && writes == old(writes)
      ensures DistinctIds(old(books)) ==> DistinctIds(books)
    {
      var bs := Load();
      var initialLength := |bs|;
      bs := Remaining(bs, id);
      if DistinctIds(books) {
        RemainingKeepsDistinct(books, id);
      }
      if |bs| == initialLength {
        deleted := false;
      } else {
        Save(bs);
        deleted := true;
      }
    }

    /** `find_books`: reads the document and changes nothing. */
    method FindBooks(query: string, field: string) returns (found: seq<Book>)
      ensures found == Find(books, query, field)
    {
      var bs := Load();
      found := Find(bs, query, field);
    }

    /** `change_status`: walks the list up to the first record with `id`,
        refuses an unknown label there, overwrites that record's status and
        saves. */
    method ChangeStatus(id: string, newStatus: string) returns (outcome: StatusOutcome)
      modifies this
      ensures outcome == if !HasId(old(books), id) then NotFound
                         else if !IsStatus(newStatus) then InvalidStatus
                         else Changed
      ensures outcome != Changed ==> books == old(books) && writes == old(writes)
      ensures outcome == Changed ==>
        books == SetStatus(old(books), FirstWithId(old(books), id).value, newStatus) &&
        writes == old(writes) + 1
      ensures DistinctIds(old(books)) ==> DistinctIds(books)
    {
      var bs := Load();
      var bookFound := false;
      var i := 0;
      while i < |bs|
        invariant 0 <= i <= |bs| && bs == books
        invariant forall j :: 0 <= j < i ==> bs[j].id != id
      {
        if bs[i].id == id {
          if !IsStatus(newStatus) {
            return InvalidStatus;
          }
          bs := SetStatus(bs, i, newStatus);
          bookFound := true;
          break;
        }
        i := i + 1;
      }
      if !bookFound {
        outcome := NotFound;
      } else {
        if DistinctIds(books) {
          SetStatusKeepsDistinct(books, i, newStatus);
        }
        Save(bs);
        outcome := Changed;
      }
    }
  }

  /** `test_load_data`: an empty document loads as `[]`; after a save it
      loads as what was saved. */
  method LoadSaveScenario(id: string) returns (before: seq<Book>, after: seq<Book>)
    ensures before == [] && after == [Book(id, "Book 1", "Author 1", 2000, Available)]
  {
    var catalogue := new Catalogue();
    before := catalogue.Load();
    catalogue.Save([Book(id, "Book 1", "Author 1", 2000, Available)]);
    after := catalogue.Load();
  }

  /** `test_add_book`: adding to an empty document returns the new id and
      stores the one record with status "available". */
  method AddBookScenario(freshId: string) returns (id: Option<string>, after: seq<Book>)
    ensures id == Some(freshId)
    ensures after == [Book(freshId, "Book 1", "Author 1", 2000, Available)]
  {
    var catalogue := new Catalogue();
    id := catalogue.AddBook("Book 1", "Author 1", YearInt(2000), freshId);
    after := catalogue.Load();
  }

  /** `test_delete_book`: deleting the only record leaves an empty document. */
  method DeleteBookScenario(id: string) returns (deleted: bool, after: seq<Book>)
    ensures deleted && after == []
  {
    var catalogue := new Catalogue();
    catalogue.Save([Book(id, "Book 1", "Author 1", 2000, Available)]);
    assert catalogue.books[0].id == id;
    deleted := catalogue.DeleteBook(id);
    after := catalogue.Load();
  }

  /** `test_change_status`: checking out the only record stores the new
      status. */
  method ChangeStatusScenario(id: string) returns (outcome: StatusOutcome, after: seq<Book>)
    ensures outcome == Changed
    ensures after == [Book(id, "Book 1", "Author 1", 2000, Issued)]
  {
    var catalogue := new Catalogue();
    catalogue.Save([Book(id, "Book 1", "Author 1", 2000, Available)]);
    assert catalogue.books[0].id == id;
    outcome := catalogue.ChangeStatus(id, Issued);
    after := catalogue.Load();
  }
}
