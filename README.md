# Book catalogue — a Dafny model

`main.py` keeps a library's books in one JSON document. That document holds
an ordered list of records with the fields `id`, `title`, `author`, `year` and
`status`. The status is one of the two labels `'в наличии'` ("available") and
`'выдана'` ("checked out"). Each of the four catalogue operations follows the
same pattern: load the whole list, change it in memory, and write the whole
list back. Some failure paths skip the write.

- `add_book` converts the year with `int(year)`. It appends a new record with a
  fresh `uuid4` id and status "available", saves, and returns the id. If the
  year does not convert, it returns `None` and does not save.
- `delete_book` keeps every record whose id differs from the one given. It
  saves only if that removed something.
- `find_books` picks a field. An empty field name means `title`, and a name
  other than `title`, `author` or `year` gives an empty result. It then returns
  the records whose printed field contains the query, ignoring case.
- `change_status` walks the list up to the first record with the given id. It
  checks the new status against the two labels, overwrites that one record's
  status and saves. An unknown id or an unknown label leaves the document
  unwritten.

The model is in four modules:

- `Wrappers` (wrappers.dfy): `Option`.
- `Text` (text.dfy): the Python string operations the catalogue uses, written
  out. These are `str.lower()`, the `in` test on strings, `str(int)` and
  `int(str)`.
- `Lists` (lists.dfy): the filtering list comprehension and what it keeps.
- `Library` (library.dfy): the record type, the pure parts of the operations,
  and the class `Catalogue`. `Catalogue` stands for the document.
  - Its field `books` is the document's content.
  - Its field `writes` counts whole-document rewrites, so a path that does not
    save can be seen not to.
  - `Load` reads `books` (`load_data`) and `Save` replaces it (`save_data`).
  - The methods `AddBook`, `DeleteBook`, `FindBooks` and `ChangeStatus` load,
    compute, and save only where `main.py` does.
  - `ChangeStatus` keeps the source's loop, with its found flag and early exit.
  - A missing document reads as an empty list, which is what the constructor
    gives.

The id that `uuid4()` would produce is a parameter of `AddBook`. The model
does not require that id to be new. It proves instead that ids stay pairwise
distinct whenever the supplied id is new.

Two behaviours of the code are worth noting:

- `change_status` checks the label only once it has found the id. So an
  unknown id combined with an unknown label reports "not found", not "invalid
  status".
- `delete_book` removes every record carrying the id, not just one. When ids
  are distinct the two readings agree.

## Model

| member | source | states |
|---|---|---|
| `Text.ToLowerChar` | main.py:126 | Changes exactly the upper-case letters it folds (ASCII and Cyrillic), and never returns an upper-case letter |
| `Text.Lower` | main.py:126 | `lower()` keeps the length and maps each character on its own |
| `Text.LowerIdempotent` | main.py:126 | Lowering twice gives the same result as lowering once |
| `Text.ContainsIffOccurs` | main.py:126 | `q in s` holds exactly when some window of `s` the length of `q` equals `q`; both directions are proved |
| `Text.Contains` | main.py:126 | The empty query is contained in every text, and a query longer than the text is never contained in it |
| `Text.ContainsSameLength` | main.py:126 | For texts of equal length, containment is equality |
| `Text.IntToString` | main.py:126 | `str(year)` starts with `-` exactly when the year is negative, and everything after that sign is decimal digits (at least one). If those digits start with `0`, the whole text is `"0"`. With `ParseIntRoundTrip`, this makes it the one canonical decimal rendering |
| `Text.NatToString` | main.py:126 | `str` of a natural number is a non-empty run of decimal digits. If it starts with `0`, it is `"0"` |
| `Text.NatToStringParses` | main.py:81 | The decimal digits of a natural number form a valid digit string whose value is that number |
| `Text.ParseIntRoundTrip` | main.py:81 | `int(str(n)) == n` for every int `n` |
| `Text.Strip` | main.py:81 | The result is a contiguous middle part of the text: everything cut before it and after it is white space that `int` skips. The result neither starts nor ends with such white space |
| `Text.ParseStripped` | main.py:81 | Unpadded text converts to `n` exactly when it is a numeral for `n`: a digit string, or `+` or `-` followed by one, with the matching sign. Anything else, such as text that starts with a letter or with `-_`, fails |
| `Text.ParseInt` | main.py:81 | For every text and every int `n`, `int(text)` gives `n` exactly when the text is white space, then a numeral for `n`, then white space. Every other text takes the `ValueError` path, and in particular a text without a digit does |
| `Text.StripThenParseSound` | main.py:81 | A successful conversion of stripped text means the original text is a padded numeral for the result |
| `Text.StripThenParseComplete` | main.py:81 | A padded numeral for `n` converts to `n` |
| `Text.StripOfPadded` | main.py:81 | White space around a middle part that neither starts nor ends with white space is exactly what stripping removes |
| `Text.NumeralUnique` | main.py:81 | A numeral denotes only one value |
| `Text.DigitStringStartsWithDigit` | main.py:81 | A valid digit string starts with a digit, never with an underscore |
| `Text.ParseIntRefusesLeadingJunk` | main.py:81 | `int("x1")` and `int("-_1")` both fail |
| `Text.DigitStringCharacters` | main.py:81 | A valid digit string consists only of digits and underscores |
| `Text.ParseIntRejectsSeparator` | main.py:81 | `int("\x1c2000")` fails: the information separators are not white space to `int`, although `str.strip` would remove them |
| `Text.ParseIntUnsigned` | main.py:81 | A digit string with no padding and no sign converts to its value |
| `Text.ParseNegatedDigits` | main.py:81 | A minus sign before a digit string converts to the negated value of the digits |
| `Text.ParsePlusDigits` | main.py:81 | A plus sign before a digit string converts to the value of the digits |
| `Text.ParseIntRejectsMalformed` | main.py:81 | Text that starts and ends with a digit but is not a valid digit string fails to convert |
| `Text.StripKeepsCharacters` | main.py:81 | Every character that stripping leaves comes from the original text |
| `Text.ParseIntAcceptsPadding` | main.py:81 | `int(" 2000\n") == 2000`: surrounding white space is ignored |
| `Text.ParseIntAcceptsSignAndUnderscore` | main.py:81 | `int("-1_965") == -1965` |
| `Text.ParseIntAcceptsPlus` | main.py:81 | `int("+7") == 7` |
| `Text.ParseIntRefusals` | main.py:81 | A doubled underscore, a blank inside the digits and the empty text all fail to convert |
| `Lists.Filter` | main.py:100 | The comprehension's result is no longer than its input; it holds only elements that are in the input and satisfy the condition, and every element of the input that satisfies the condition is in it |
| `Lists.FilterIsSubsequence` | main.py:124-127 | The comprehension keeps the input's order: its result is a subsequence of the input |
| `Lists.FilterMultiplicity` | main.py:124-127 | Each element occurs in the result exactly as often as in the input if it satisfies the condition, and not at all otherwise |
| `Lists.FilterKeepsAll` | main.py:99-101 | If every element satisfies the condition, the result is the input itself; if one does not, the result is strictly shorter |
| `Lists.FilterSameCondition` | main.py:124-127 | Two conditions that agree on every element produce the same result |
| `Lists.FilterPair` | main.py:124-127 | The result of filtering a two-element list, worked out element by element |
| `Library.ParseYear` | main.py:81 | `int(year)` of an int is that int |
| `Library.ParseYearAcceptsRendering` | main.py:81 | A year typed the way `str` prints it is accepted with its value |
| `Library.IsStatus` | main.py:157 | A new status is accepted exactly when it is one of the two labels "в наличии" and "выдана" |
| `Library.AppendKeepsDistinct` | main.py:76-84 | Appending a record whose id is not already used keeps ids pairwise distinct |
| `Library.Remaining` | main.py:98-101 | The remaining records are exactly those of the document whose id differs, kept in order. The list gets shorter exactly when the id was present; otherwise it is the document unchanged |
| `Library.RemainingMultiplicity` | main.py:100 | A record with a different id is kept as many times as the document holds it, and a record with the id is never kept |
| `Library.RemainingKeepsDistinct` | main.py:100 | Deleting records keeps ids pairwise distinct |
| `Library.SearchField` | main.py:119-123 | An empty field name means `title`, the three field names select their field, and every other name is refused |
| `Library.FieldText` | main.py:126 | `str(book[field])` is the title or the author unchanged. For the year it is the canonical rendering `IntToString`, which `int` reads back as that year |
| `Library.Matches` | main.py:126 | An empty query matches every record |
| `Library.MatchesIffOccurs` | main.py:126 | A record matches exactly when the lowercased query equals some window of its lowercased field text |
| `Library.Find` | main.py:118-128 | An invalid field gives `[]`. For a valid field, the result is an order-preserving subsequence of the document, and a record is in it exactly when its lowercased printed field contains the lowercased query |
| `Library.FindMultiplicity` | main.py:124-127 | A matching record appears as often in the result as in the document, and a non-matching record never appears |
| `Library.FindIgnoresQueryCase` | main.py:126 | Lowercasing the query beforehand does not change the result |
| `Library.FindDefaultsToTitle` | main.py:119-120 | Searching with an empty field name is searching by title |
| `Library.FindPair` | main.py:124-127 | Searching a two-record document keeps each record exactly when it matches, in order |
| `Library.FindSampleByTitle` | tests.py:71-74 | In the two-book sample, searching "Book 1" by title finds just the first book |
| `Library.FindSampleLowerCaseDefaultField` | main.py:119-126 | In the sample, searching "book 1" with the field left empty finds the same book |
| `Library.FindSampleByAuthor` | tests.py:76-79 | In the sample, searching "Author 2" by author finds just the second book |
| `Library.FindSampleByYear` | tests.py:81-84 | In the sample, searching "2000" by year finds just the first book |
| `Library.FindSampleUnknownField` | tests.py:86-88 | Searching the sample by the field `test` finds nothing |
| `Library.FirstWithId` | main.py:155-156 | The index of the first record with the id: that record has the id, no earlier record does, and the result is `None` exactly when no record has the id |
| `Library.SetStatus` | main.py:160 | Overwriting a status changes only that record's status. The length, every other field of that record and every other record stay the same |
| `Library.SetStatusKeepsDistinct` | main.py:160 | Changing a status keeps ids pairwise distinct |
| `Library.Catalogue.constructor` | main.py:40-41 | A document that does not exist reads as the empty list |
| `Library.Catalogue.Load` | main.py:33-47 | `load_data` returns the whole document as it is stored |
| `Library.Catalogue.Save` | main.py:49-60 | The list replaces the whole document, so loading afterwards gives exactly that list, and one more write is counted |
| `Library.Catalogue.AddBook` | main.py:62-89 | If the year converts: returns the supplied id, appends exactly one record (given title and author, converted year, status "available", that id) after the unchanged earlier records, and saves. If it does not: returns `None`, and the document is unchanged and not written. Ids stay distinct when the supplied id is new |
| `Library.Catalogue.DeleteBook` | main.py:91-105 | Reports a deletion exactly when the id was present. Then the document becomes `Remaining`, is shorter and is saved; otherwise it is unchanged and not written. Ids stay distinct |
| `Library.Catalogue.FindBooks` | main.py:107-128 | Returns `Find` of the current document and changes nothing |
| `Library.Catalogue.ChangeStatus` | main.py:145-167 | Reports "not found" if the id is absent, "invalid status" if the id is present but the label is not one of the two, and "changed" otherwise. Only a change overwrites the status of the first record with the id (via `SetStatus`) and saves; the other two outcomes leave the document unchanged and unwritten. Ids stay distinct |
| `Library.LoadSaveScenario` | tests.py:20-29 | An empty document loads as `[]`; after one record is saved, loading gives exactly that record |
| `Library.AddBookScenario` | tests.py:40-51 | Adding "Book 1" by "Author 1" from 2000 to an empty document returns the new id, and the document then holds exactly that record with status "available" |
| `Library.DeleteBookScenario` | tests.py:53-63 | Deleting the only record reports a deletion and leaves the document empty |
| `Library.ChangeStatusScenario` | tests.py:110-120 | Checking out the only record reports a change and stores the status "checked out" |

## Left out

- The interactive menu `main()`, with its `input`/`print` calls and `KeyboardInterrupt` handling (main.py:169-223), is user-interface code that only calls the four operations.
- `display_books` (main.py:130-143) only prints the list; the list it prints is `Load()`.
- The messages the operations print are not modelled. The outcome values returned by `AddBook`, `DeleteBook` and `ChangeStatus` say which message would be printed.
- JSON encoding and decoding, and file I/O errors (main.py:40-60), are not modelled. `load_data` is reading the `books` field and `save_data` is assigning it. A read error that yields `[]` and a write error that is reported and swallowed are not modelled.
- Records are assumed well formed: every record has all five fields, with an integer year. A document whose records lack a field, which would raise `KeyError` in `find_books`, is not modelled.
- `uuid4()` randomness is not modelled; the new id is a parameter of `AddBook`.
- `Text.ToLowerChar`: folds only ASCII A-Z and the Cyrillic capitals U+0400..U+042F. Python's full Unicode case mapping, including multi-character lower-case forms, is not modelled.
- `Text.ParseInt`: accepts only ASCII digits and skips only tab, line feed, vertical tab, form feed, carriage return and space. Python's `int` also accepts other Unicode decimal digits and Unicode white space.
- `Text.ParseInt`: conversions are unbounded in the model. Python's limit on integer strings (`sys.int_max_str_digits`, 4300 digits by default) is not modelled. Over that limit, `int(year)` raises `ValueError`, so `add_book` would return `None` without saving, while `AddBook` appends.
- `Text.IntToString`: `str(year)` is unbounded in the model. For a year with more than 4300 digits, Python's `str` raises `ValueError`. That affects `find_books` by year (main.py:126, uncaught there) and writing the document (main.py:58).
- `Library.ParseYear`: `int(year)` is modelled for int and string arguments only. Those are the argument types the tests and the menu pass.
