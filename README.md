# Phone book contact store, modelled in Dafny

A model of a small command-line phone book written in Rust. The library keeps
a `PhoneBook` of `Contact` records: first name, last name, phone number and
an optional postal `Address`. Contacts compare and hash by phone number only,
so the underlying `HashSet<Contact>` holds at most one record per number. The
store can insert, replace and delete a contact, look one up by number, and
list contacts by name or by city. The front end parses an address argument
written as "street, city, state, postcode, country". Its `update` command
merges the supplied fields into the stored contact. A name search with no
name is refused.

Layout:

- `wrappers.dfy` (`Wrappers`): Rust's `Option`, `Result` and `Result<()>` (`Outcome`).
- `text.dfy` (`Text`): the parts of Rust's `str` that the program relies on.
  These are `len` (UTF-8 bytes), `trim` (Unicode White_Space at both ends) and `split` on one character.
- `book.dfy` (`Book`): the records, the validation, the store operations as
  functions on a `Store` (a map from phone number to contact), and the class
  `PhoneBook`, whose methods update its `contacts` field in place and are
  proved against those functions.
- `book_properties.dfy` (`BookProperties`): lemmas relating the operations to
  one another. These include round trips, query behaviour after changes, the
  invariant over any session, and the example scenarios.
- `cli.dfy` (`Cli`): `parse_address`, the field merge of `update` (a pure
  specification and the imperative command), and the name-search guard.

The `HashSet` with phone-only equality is modelled as an explicit map keyed by
phone number. `Keyed` (the class invariant `PhoneBook.Valid`) says that each
contact is filed under its own number. `BookProperties.OneContactPerNumber`
shows that this gives exactly the source's rule: one record per number.
Query results (`Vec<&Contact>` in an unspecified order) are modelled as sets.

Phone numbers are validated by byte length, as the code does (`str::len`).
A plain description of the program might say "10 characters". For ASCII
numbers the two agree. Otherwise they do not: "555123456é" has ten characters
but eleven bytes and is rejected. No digit check exists: "abcdefghij" is accepted.

## Model

| member | source | states |
|---|---|---|
| `Text.Utf8Len` | src/lib.rs:142 | the byte length of a string is between its character count and four times that |
| `Text.Utf8LenIsCharCountIffAscii` | src/lib.rs:142 | byte length equals character count if and only if the text is ASCII |
| `Text.TrimStart` | src/main.rs:104-108 | the result is a suffix of the input; everything dropped is white space; the result does not start with white space |
| `Text.TrimEnd` | src/main.rs:104-108 | the result is a prefix of the input; everything dropped is white space; the result does not end with white space |
| `Text.Trim` | src/main.rs:104-108 | the result is the infix of the input left after removing only white space at both ends, and it neither starts nor ends with white space |
| `Text.TrimTrimmed` | src/main.rs:104-108 | text that is already trimmed is left unchanged |
| `Text.TrimIdempotent` | src/main.rs:104-108 | trimming twice gives the same result as trimming once |
| `Text.TrimStartPrefix` | src/main.rs:104-108 | trimming the front removes exactly a leading white-space run |
| `Text.TrimEndSuffix` | src/main.rs:104-108 | trimming the back removes exactly a trailing white-space run |
| `Text.TrimPadded` | src/main.rs:104-108 | white space padded around trimmed non-empty text is removed exactly |
| `Text.Count` | src/main.rs:98 | the separator count is zero exactly when the separator does not occur |
| `Text.Split` | src/main.rs:96 | splitting gives one more piece than there are separators, and no piece contains the separator |
| `Text.JoinPrepend` | src/main.rs:96 | a character added to the front of the first piece appears at the front of the joined text |
| `Text.JoinSplit` | src/main.rs:96 | joining the pieces with the separator gives back the original text |
| `Text.SplitJoin` | src/main.rs:96 | separator-free pieces, joined and then split, come back unchanged and in order |
| `Text.SplitSeparatorFree` | src/main.rs:96 | separator-free text in front joins the first piece |
| `Book.IsValidPhoneNumber` | src/lib.rs:141-147 | an accepted number has 3 to 10 characters; for ASCII text it is accepted exactly when it has 10 characters |
| `Book.Insert` | src/lib.rs:76-84 | fails with InvalidPhoneNumber when the length is wrong and with DuplicateContact when the number is present; otherwise adds exactly the contact (one more entry, no other entry changed) and keeps the invariants |
| `Book.Replace` | src/lib.rs:86-93 | fails with InvalidPhoneNumber or NotFound, leaving the store as it was; otherwise the entry equals the new contact in every field, and the keys, size and other entries are unchanged |
| `Book.ReplaceAsWritten` | src/lib.rs:86-93 | reports success exactly when the number was present and NotFound when a valid number was absent; whenever the number is valid, the contact is stored under it and all other entries stay as they were; one record per number and valid numbers are kept |
| `Book.Delete` | src/lib.rs:95-108 | fails with InvalidPhoneNumber or NotFound; otherwise removes exactly that number (one fewer entry, no other entry changed) |
| `Book.FindPhoneNumber` | src/lib.rs:110-117 | returns a stored contact whose number is the argument; fails with InvalidPhoneNumber for a bad length, and with NotFound only when no stored contact has that number |
| `Book.FindName` | src/lib.rs:119-127 | returns stored contacts only, each matching the first name or the last name (absent = ""); every stored contact matching either one is included |
| `Book.FindCity` | src/lib.rs:129-138 | returns stored contacts whose address is present and in the city; every such contact is included, and none without an address |
| `Book.PhoneBook.constructor` | src/lib.rs:49-53 | a new phone book is empty and valid |
| `Book.PhoneBook.InsertContact` | src/lib.rs:76-84 | the new contents are the result of `Insert` on success; on failure they are unchanged and the same error is returned |
| `Book.PhoneBook.ReplaceContact` | src/lib.rs:86-93 | implements the corrected replace (see Findings): the new contents are the result of `Replace` on success; on failure they are unchanged and the same error is returned |
| `Book.PhoneBook.DeleteContact` | src/lib.rs:95-108 | the new contents are the result of `Delete` on success; on failure they are unchanged and the same error is returned |
| `BookProperties.OneContactPerNumber` | src/lib.rs:29-45 | two stored contacts with the same phone number are the same contact |
| `BookProperties.InsertThenFind` | src/lib.rs:76-117 | a lookup finds a just-inserted contact |
| `BookProperties.InsertThenDelete` | src/lib.rs:76-108 | deleting a just-inserted contact restores the original store |
| `BookProperties.DuplicateInsertKeepsRecord` | src/lib.rs:79-81 | a second insert under the same number fails with DuplicateContact, and the first record is still the one found |
| `BookProperties.ReplaceThenFind` | src/lib.rs:86-117 | after a replace, a lookup returns the new contact in every field |
| `BookProperties.ReplaceUndone` | src/lib.rs:86-93 | replacing with the previous record restores the store |
| `BookProperties.DeleteThenFind` | src/lib.rs:95-117 | after a delete the number is not found, and lookups of other numbers are unaffected |
| `BookProperties.EmptyBook` | src/lib.rs:49-53 | on an empty store lookup, delete and replace fail with NotFound and both searches are empty |
| `BookProperties.InsertAddsContact` | src/lib.rs:76-84 | after an insert the contact set is the old set plus the new contact |
| `BookProperties.FindNameAfterInsert` | src/lib.rs:119-127 | a name search after an insert returns the old result, plus the new contact if it matches |
| `BookProperties.FindCityAfterInsert` | src/lib.rs:129-138 | a city search after an insert returns the old result, plus the new contact if it is in the city |
| `BookProperties.DeleteRemovesContact` | src/lib.rs:95-108 | after a delete the contact set is the old set minus the deleted contact |
| `BookProperties.DeletedContactNotSearched` | src/lib.rs:119-138 | a deleted contact appears in no name search and no city search |
| `BookProperties.EmptyLastNameAlwaysMatches` | src/lib.rs:122-125 | because the filter is an OR, a contact with an empty last name matches any search that gives only a first name |
| `BookProperties.RunKeepsInvariant` | src/lib.rs:76-108 | any sequence of inserts, deletes and replaces, the replaces either corrected or as written, keeps one contact per number and all numbers 10 bytes long |
| `BookProperties.RunFromEmpty` | src/lib.rs:49-108 | every contact stored during a session that starts from a new phone book has a valid number, including sessions that use the as-written replace |
| `BookProperties.ReplaceAsWrittenKeepsContactOnFailure` | src/lib.rs:89-92 | replace as written, on an empty store, reports NotFound and still stores the contact |
| `BookProperties.ReplaceAsWrittenSession` | src/lib.rs:86-93 | from an empty book, the as-written replace leaves exactly the one contact when its number is valid, and keeps the invariants either way |
| `BookProperties.ReplaceAsWrittenAgreesWhenFound` | src/lib.rs:89-92 | when the number is present, replace as written and the corrected replace agree |
| `BookProperties.NameSearchScenario` | src/lib.rs:119-127 | with Ann Lee and Bob Lee stored, first name "Ann" finds only Ann, and last name "Lee" finds both |
| `BookProperties.InsertReplaceScenario` | src/lib.rs:76-117 | insert succeeds, a second insert under the same number fails, and a replace then makes the lookup return the new first name |
| `BookProperties.PhoneLengthCountsBytes` | src/lib.rs:141-147 | ten characters that take eleven bytes are rejected; ten ASCII letters are accepted |
| `Cli.ParseAddress` | src/main.rs:95-110 | succeeds exactly when the text has four commas (five pieces), otherwise fails with InvalidAddressFormat; no field contains a comma or leading or trailing white space |
| `Cli.ParseAddressFields` | src/main.rs:95-110 | five comma-free pieces joined by commas parse to street, city, state, postcode and country, in order, each trimmed |
| `Cli.ParseFormatAddress` | src/main.rs:94-110 | an address written as "street, city, state, postcode, country" parses back to itself |
| `Cli.PaddedCommaFree` | src/main.rs:96 | a space in front of a comma-free field adds no comma |
| `Cli.LeadingSpaceTrimmed` | src/main.rs:104-108 | the space after each comma is trimmed away |
| `Cli.Merge` | src/main.rs:151-164 | the merged contact keeps the stored phone number, and is the stored contact itself when no field is supplied |
| `Cli.MergeOverwritesOnlySupplied` | src/main.rs:153-164 | a supplied first name, last name or address replaces the stored one; an absent one keeps the stored value |
| `Cli.Update` | src/main.rs:150-166 | succeeds exactly when the number is valid and present, with the lookup's error otherwise; on success only that entry changes, to the merge of the stored contact |
| `Cli.UpdateNothing` | src/main.rs:151-166 | an update that supplies no field leaves the store as it was |
| `Cli.UpdateAvoidsReplaceDefect` | src/main.rs:151-166 | on the update path the number is always present, so the as-written replace succeeds and matches the model |
| `Cli.UpdateCommand` | src/main.rs:144-169 | copying the stored contact, overwriting the supplied fields one at a time and replacing gives exactly `Update`; a failed lookup changes nothing |
| `Cli.SearchByName` | src/main.rs:179-187 | refused with MissingSearchTerm, whatever the store holds, exactly when neither name is given; otherwise the name search result |
| `Cli.UnguardedEmptySearch` | src/main.rs:180-187 | without the guard, a search with no names would list exactly the contacts that have an empty first or last name |

## Left out

- `PhoneBook::new_from_file` and `save_to_file` (src/lib.rs:55-74): file I/O and JSON (de)serialisation are foreign library calls. No save/load round trip is claimed. A store loaded from a file is not checked for valid numbers, which is why `Keyed` (one record per number) is the class invariant and `PhonesValid` is proved only for sessions of store operations.
- The clap argument structures, help text and the default file name (src/main.rs:7-92).
- Printing, exit codes and the `.unwrap()` panics in `main`. A panic is modelled as the operation's error result. The `init`, `add`, `delete`, `search phone` and `search city` branches are each one store operation followed by I/O, so they are covered by the store operations.
- `search fuzzy` and `search prefix` (src/main.rs:218-223): `todo!()` stubs with no behaviour.
- `HashSet` hashing and iteration order. Query results are sets. Contacts in one store have distinct numbers, so a set loses no entry of the source's vector.
- Error message text: a five-case `Error` enumeration stands for the `anyhow!` messages.
- Strings are sequences of Unicode scalar values. Byte-level UTF-8 is represented only through `Text.Utf8Len`, since Rust `&str` is always valid UTF-8.
- Concurrent access to the JSON file by several processes.

## Findings

| source | as written | input that shows it | evidently intended | confidence | as-written member | corrected member |
|---|---|---|---|---|---|---|
| src/lib.rs:89-92 | `HashSet::replace` adds its argument even when no equal element is present. So `replace_contact` on an unknown number returns an error and also adds the contact. | On an empty phone book, `replace_contact` of Jane Doe, 5551234567, with no address: the call reports failure, and the book now holds that contact. | A failed replace leaves the store unchanged. | high (follows from the documented `HashSet::replace`); not executed | `BookProperties.ReplaceAsWrittenKeepsContactOnFailure` | `Book.Replace` |

The `update` command looks the number up before replacing, so it never
reaches the defective path (`Cli.UpdateAvoidsReplaceDefect`). A direct caller
of the library can still reach it. The class `PhoneBook` uses the corrected `Book.Replace`.
