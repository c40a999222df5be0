# HW12 contact book, modelled in Dafny

A model of the contact book in `HW12/hw12.py`. It covers:

- the validated fields `Name`, `Phone` and `Birthday`;
- `Record`, one contact with its phones and optional birthday;
- `AddressBook`, a dictionary from name to record that is pickled to a file after every change.

The modules follow the structure of the Python file:

- `wrappers.dfy` (`Wrappers`): `Option`, `Result` and `Outcome`. They stand for `None` and for the `ValueError`s the code raises.
- `dates.dfy` (`Dates`): what `datetime.strptime(val, "%Y-%m-%d")` accepts. This follows CPython's pattern for that format:
  - a four-digit year, then `-`;
  - a month written `1`..`9`, `01`..`09` or `10`..`12`, then `-`;
  - a day written `1`..`9`, ` 1`..` 9` (space-padded), `01`..`09`, `10`..`29`, `30` or `31`;
  - the whole string must be consumed;
  - the date must exist in the proleptic Gregorian calendar, with year at least 1.
- `fields.dfy` (`Fields`):
  - the three field kinds, each with its `validate` hook;
  - the `Field` class, whose `SetValue` is the `value` property setter;
  - `NewField`, which is calling `Name(...)`, `Phone(...)` or `Birthday(...)`.
- `lists.dfy` (`Lists`): specification functions on lists of strings. `FirstIndex` is the first match. `Removed` drops every match. Lemmas give their meaning.
- `records.dfy` (`Records`): the `Record` class. Its phones are `Field` objects kept in a list. Phones are compared by their string form, which is `Numbers()`.
- `chunking.dfy` (`Chunking`): the pages produced by `iterator`, with lemmas on their order, sizes and number.
- `address_book.dfy` (`AddressBooks`):
  - the `AddressBook` class, holding the dictionary as a key order `keys` plus a map `data`;
  - the `Store` class, which stands for the pickle file.
- `scenarios.dfy` (`Scenarios`): two uses of the operations that are checked from their contracts alone.

Three behaviours of the code that the model keeps:

- **What a birthday stores.** A birthday field holds the original string, not a parsed date (hw12.py:21).
- **What a birthday accepts.** It accepts whatever strptime accepts. The model accepts the same lenient forms: a one-digit month or day, and a space-padded day.
- **A chunk size below 1.** The Python loop would run forever on any non-empty book. `Iterator` requires a chunk size of at least 1 unless the book is empty, because an empty book ends that loop at once. Its chunk size defaults to 10, as `chunk_size` does.

The pickle file is replaced by a `Store` object passed to the constructor. The file name, the pickle byte format and the `open` calls are not modelled.

## Model

| member | source | states |
|---|---|---|
| `Fields.Validate` | HW12/hw12.py:23-39 | A name is always accepted. A phone is accepted exactly when it has 10 characters, each an ASCII digit. A birthday is accepted exactly when `Dates.Accepts` holds, that is, when `strptime` with `%Y-%m-%d` succeeds. Otherwise the phone error is InvalidPhoneFormat and the birthday error is InvalidDateFormat. |
| `Fields.Field.constructor` | HW12/hw12.py:7-9 | A field built from an accepted value holds that value and is valid. |
| `Fields.Field.SetValue` | HW12/hw12.py:18-21 | The setter validates before it assigns. An accepted value is stored. A rejected one raises the kind's error and leaves the previous value, so the field stays valid. |
| `Fields.NewField` | HW12/hw12.py:7-9 | Constructing a field succeeds exactly when `validate` accepts. It then gives a fresh field holding the argument unchanged. Otherwise the kind's error comes back and no object escapes. |
| `Fields.PhoneExamples` | HW12/hw12.py:29-32 | A 10-digit string is accepted. 9 digits, 11 digits, a dash inside, or the empty string raise InvalidPhoneFormat. |
| `Fields.BirthdayExamples` | HW12/hw12.py:34-39 | `2024-02-29` is accepted. `2023-02-30` and `not-a-date` raise InvalidDateFormat. |
| `Dates.ParseYmd` | HW12/hw12.py:37 | The pattern reads a year of at most 9999, a month in 1..12 and a day in 1..31, or it does not match. |
| `Dates.FormatRoundTrip` | HW12/hw12.py:37 | For any date the pattern can express, reading its zero-padded `YYYY-MM-DD` text gives back that date. |
| `Dates.FormatOutOfRange` | HW12/hw12.py:37 | A zero-padded `YYYY-MM-DD` string whose month is outside 1..12 or whose day is outside 1..31 does not match the pattern at all. |
| `Dates.FormatAccepted` | HW12/hw12.py:37 | A zero-padded `YYYY-MM-DD` string, with any two-digit month and day (00 to 99), is accepted exactly when it names a real calendar date. |
| `Dates.CommonYearFebruaryExample` | HW12/hw12.py:37 | `2023-02-28` is accepted. |
| `Dates.LeapYearFebruaryExample` | HW12/hw12.py:37 | `2024-02-29` is accepted. |
| `Dates.PastFebruaryExamples` | HW12/hw12.py:37 | `2023-02-29` and `2023-02-30` are refused. |
| `Dates.RejectedExamples` | HW12/hw12.py:37 | `not-a-date`, year 0, month 13 and day 32 are refused. |
| `Dates.LenientExamples` | HW12/hw12.py:37 | A one-digit month and day (`2023-1-5`) and a space-padded day (`2023-01- 5`) are accepted. |
| `Lists.FirstIndex` | HW12/hw12.py:61-65 | Gives None exactly when the string does not occur. Otherwise gives an index holding the string with no earlier occurrence. |
| `Lists.RemovedSpec` | HW12/hw12.py:50-51 | After removal no element equals the argument. Every other element keeps its number of occurrences. The survivors are a subsequence of the original list, so their order is kept. |
| `Lists.RemovedMembership` | HW12/hw12.py:50-51 | An element remains exactly when it was present and differs from the argument. |
| `Lists.RemovedIdempotent` | HW12/hw12.py:50-51 | Removing twice equals removing once. |
| `Lists.RemovedNothing` | HW12/hw12.py:50-51 | When nothing matches, the list is unchanged, and nothing is raised. |
| `Lists.RemovedDistinct` | HW12/hw12.py:95-98 | Deleting one key from distinct dictionary keys keeps them distinct. The key set loses exactly that key. |
| `Records.WithoutIdempotent` | HW12/hw12.py:50-51 | Removing a phone twice leaves the same list of phone objects as removing it once. |
| `Records.Without` | HW12/hw12.py:51 | Each phone object whose string differs from the argument stays, as many times as it was there. Each object whose string matches goes. The survivors keep their original order. Their strings are the original strings with the argument removed. |
| `Records.Record.constructor` | HW12/hw12.py:42-45 | A new record has a fresh name field holding the name and no phones. It has a birthday field holding the text exactly when a non-empty birthday is given, and no birthday otherwise. |
| `Records.NewRecord` | HW12/hw12.py:42-45 | `Record(name, birthday)` fails, with InvalidDateFormat, exactly when a non-empty birthday is refused. Otherwise it gives a valid fresh record as above. |
| `Records.Record.AddPhone` | HW12/hw12.py:47-48 | A valid phone grows the list by exactly one. The new fresh phone is at the end and earlier entries are unchanged. An invalid phone raises InvalidPhoneFormat and the list is unchanged. |
| `Records.Record.RemovePhone` | HW12/hw12.py:50-51 | The phone list becomes the comprehension's result over the old list. Non-matching phone objects stay, in order and with their multiplicity; every matching one goes. The phone strings become the old strings with every match removed. The record stays valid. |
| `Records.Record.EditPhone` | HW12/hw12.py:53-59 | If no phone matches, it raises PhoneNotFound. If one matches but the new phone is invalid, it raises InvalidPhoneFormat. Either way the list is unchanged. On success only the first matching index is replaced, by a fresh phone with the new string. The length and every other entry are unchanged. |
| `Records.Record.FindPhone` | HW12/hw12.py:61-65 | Returns null exactly when no phone matches. Otherwise returns the very phone object at the smallest matching index. |
| `Chunking.Chunks` | HW12/hw12.py:100-109 | The pages the iterator yields. There are none exactly when there are no records, and every page holds between 1 and `chunk_size` records. |
| `Chunking.FlattenChunks` | HW12/hw12.py:100-109 | Concatenating the pages gives back the records in key order. |
| `Chunking.ChunkSizes` | HW12/hw12.py:100-109 | Every page but the last has exactly `chunk_size` records. The last has between 1 and `chunk_size`. |
| `Chunking.ChunkCount` | HW12/hw12.py:100-109 | An empty book yields no pages. Otherwise the number of pages is the ceiling of records over `chunk_size`, as `(n + k - 1) / k` and as the two bounds that define it. |
| `Chunking.ThreeInPairs` | HW12/hw12.py:100-109 | Any three records `a`, `b`, `c` in pages of two give `[a, b]` then `[c]`. |
| `Chunking.CursorNeverFinishes` | HW12/hw12.py:103-109 | With `chunk_size <= 0` the loop cursor never exceeds 0. A non-empty book therefore never ends the loop, which is why `Iterator` requires a positive chunk size. |
| `AddressBooks.Lookup` | HW12/hw12.py:107 | Looking up the whole key order of a book lists every record of the book and nothing else. |
| `AddressBooks.LookupSlice` | HW12/hw12.py:107 | Looking up the slice `record_names[i:j]` gives the same slice of the full listing. |
| `AddressBooks.Store.constructor` | HW12/hw12.py:119-120 | A location where nothing was ever saved holds no file. |
| `AddressBooks.AddressBook.constructor` | HW12/hw12.py:83-86 | A new book holds what the file holds, in the saved key order, or is empty when there is no file. |
| `AddressBooks.AddressBook.LoadData` | HW12/hw12.py:115-120 | The book becomes the file's contents, or the empty book when the file is absent. |
| `AddressBooks.AddressBook.SaveData` | HW12/hw12.py:111-113 | Afterwards the file holds exactly the book, keys in order and entries. |
| `AddressBooks.AddressBook.Find` | HW12/hw12.py:92-93 | In a book whose key order matches its mapping, `find` returns a record exactly when the name is among the keys. What it returns is one of the book's records. |
| `AddressBooks.AddressBook.AddRecord` | HW12/hw12.py:88-90 | Afterwards `find(name)` returns the record and every other name finds what it found before. The key set grows by at most that name. A new name goes last in key order; an existing one keeps its position. The file then equals the book. |
| `AddressBooks.AddressBook.Delete` | HW12/hw12.py:95-98 | A present name is removed from the mapping and from the key order, nothing else changes, and the file then equals the book. An absent name changes neither the book nor the file. |
| `AddressBooks.AddressBook.Iterator` | HW12/hw12.py:100-109 | The loop yields exactly `Chunks` of the records in key order, so the chunking lemmas apply to its pages. |
| `AddressBooks.NextChunk` | HW12/hw12.py:105-109 | One loop step: the page at cursor `i` is the slice up to `i + chunk_size`, clamped to the end, and the rest starts at `i + chunk_size`. |
| `AddressBooks.Reopen` | HW12/hw12.py:83-86 | A book opened on the file of a just-saved book has the same names, in the same order, with the same records. |
| `Scenarios.EditThenFind` | HW12/hw12.py:53-65 | After adding `1234567890` and editing it to `0987654321`, the new number is found and the old one is not. Editing a missing number raises PhoneNotFound. |
| `Scenarios.AddTwiceOverwrites` | HW12/hw12.py:88-93 | Adding two records under one name leaves one entry. That entry holds the second record, and the file holds the same. |

## Left out

- The interactive menu (hw12.py:122-172). It is `input`/`print` I/O, including its substring search over rendered records.
- `days_to_birthday` (hw12.py:67-75). It reads the wall clock. As written it also fails: line 71 reads `.month` from the stored birthday, which is a string.
- `__str__` of fields and records (hw12.py:11-12, 77-80). This is localized display text. For a phone the string form equals its value, which is what matching uses.
- Pickle and the file system (hw12.py:111-120). The file is a `Store` object. A load error other than a missing file, such as a corrupt file, is not modelled.
- AddressBooks.AddressBook.SaveData: the file holds references to the same `Record` objects, not pickled copies. A record changed after a save therefore also changes what the model's file holds. The real file would hold the old record contents.
- AddressBooks.AddressBook.Iterator: computes all the pages at once from one snapshot, whereas the generator looks records up lazily between yields. A book changed between yields is not modelled.
- Fields.Validate: digits are ASCII only. Python's `str.isdigit` and `\d` also accept other Unicode digits.
- Fields.Validate: values are strings. The `isinstance(val, str)` test and non-string names are outside the model, because every caller in the file passes strings.
- The dictionary methods `AddressBook` inherits from `UserDict` and the file never calls. Only `add_record`, `find`, `delete`, `iterator`, `save_data` and `load_data` are modelled.
- The `filename` attribute (hw12.py:85). It is replaced by the `Store` object.
