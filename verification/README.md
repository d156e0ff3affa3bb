# Student record ledger

A browser page keeps a table of student records in local storage. Each record
has a serial number, a student ID, a name and a topic. It also has an owner
(the student ID that was active when the record was added), a "referenced"
flag and a creation time stamp. A visitor declares a student ID and can then:

- add records;
- flag or unflag any record as referenced;
- edit their own records;
- delete their own records that are not referenced;
- clear the whole table.

The table is drawn sorted by serial number. It can be narrowed by a
case-insensitive search box. Every field is HTML-escaped before it is drawn.

This project models that logic in Dafny:

- `Text` models `String.prototype.trim` (the full JavaScript white-space set),
  `toLowerCase` on ASCII letters and `includes`.
- `Records` holds the record type, the handlers' error outcomes and the
  stamp search that delete uses (`findIndex` on `createdAt`). It also holds
  the two list invariants the handlers keep: distinct stamps, and trimmed
  fields with a non-empty owner.
- `View` models the read-only part of `renderTable`: a stable sort by
  serial number, then the search filter.
- `Escape` models `escapeHtml`, with the proof that it removes every `<`,
  `>`, `"` and `'` (the `&` that starts each entity remains) and that it can
  be undone exactly.
- `StudentLedger` models the page's state (`dataList` and `currentUser`)
  as a `Ledger` class. Each button handler is a method that updates the
  class's fields. A browser dialog is an argument: `confirm` is a `bool`, and
  a `prompt` is an `Option` that is `None` when it is cancelled. The clicked
  record is named by its position in the stored list. `Date.now()` is the
  `now` argument of `Create`.

The model follows the code as written, in particular:

- The serial number and the ID are typed by hand. Nothing fills them in.
- An edit does not re-check its fields for blanks.
- Acting on a record that is not in the list is not an error case, because a
  button always belongs to a drawn record.
- Delete finds the record to remove by its creation stamp. When two records
  share a stamp, the guards are checked on the clicked record but the first
  record with that stamp is removed. `StudentLedger.CollisionScenario` shows
  one ID deleting another ID's referenced record this way.

## Model

| member | source | states |
|---|---|---|
| Text.TrimStart | script.js:28 | Leading white space is removed: the result is no longer than the input and does not start with white space (TrimStartSuffix gives the rest) |
| Text.TrimEnd | script.js:28 | Trailing white space is removed: the result is no longer than the input, keeps its first character and does not end with white space (TrimEndPrefix gives the rest) |
| Text.Trim | script.js:28 | The trimmed text is no longer than the input, and it neither starts nor ends with white space |
| Text.TrimInfix | script.js:28 | Trimming keeps one contiguous piece of the input, and everything cut off on either side is white space |
| Text.TrimEmptyIff | script.js:28-29 | A typed value trims to "" exactly when it is all white space, which is when the ID setter alerts |
| Text.TrimFixes | script.js:28 | Trimming leaves a string unchanged exactly when it neither starts nor ends with white space |
| Text.TrimIdempotent | script.js:38-41 | Trimming an already trimmed field changes nothing |
| Text.TrimStartSuffix | script.js:28 | Stripping leading white space keeps a suffix of the input and removes only white space |
| Text.TrimEndPrefix | script.js:28 | Stripping trailing white space keeps a prefix of the input and removes only white space |
| Text.Lower | script.js:84 | Lower-casing keeps the length, turns each ASCII capital into its own small letter, keeps every other character, and so leaves no ASCII capital |
| Text.LowerSameIff | script.js:58 | Two strings lower-case to the same text exactly when they have the same length and differ only in the case of ASCII letters |
| Text.LowerIdempotent | script.js:58 | Lower-casing twice is lower-casing once |
| Text.TrimLower | script.js:58 | Trimming and lower-casing commute, so the search box's `trim().toLowerCase()` is order-independent |
| Text.ContainsIff | script.js:85 | The `includes` scan succeeds exactly when the filter occurs at some position of the text |
| Text.Contains | script.js:85 | `includes` as a left-to-right scan; its meaning is given by ContainsIff and ContainsEmpty |
| Text.ContainsEmpty | script.js:83-85 | Every text includes the empty filter |
| Escape.ReplaceAll | script.js:165-169 | `replaceAll` with a string pattern; what the five calls do together is given by StageStep, ReplaceSkip and EscapeHtmlIsEscapeEach |
| Escape.EscapeHtml | script.js:163-170 | The five `replaceAll` calls in source order; its contract is carried by EscapeHtmlIsEscapeEach, EscapeHtmlSafe and EscapeRoundTrip |
| Escape.EscapeHtmlIsEscapeEach | script.js:163-170 | Because `&` is replaced first, the chain of five `replaceAll` calls is the same as replacing each character by its entity independently |
| Escape.EscapeHtmlSafe | script.js:162-170 | The escaped text contains no `<`, `>`, `"` or `'` |
| Escape.EscapeEachSafe | script.js:163-170 | No entity contains `<`, `>`, `"` or `'`, so a text escaped character by character holds none |
| Escape.EscapeRoundTrip | script.js:163-170 | Decoding `&lt;`, `&gt;`, `&quot;`, `&#039;` and then `&amp;` gives back the original text exactly: escaping loses nothing |
| Escape.StageStep | script.js:165-169 | Each `replaceAll` call rewrites the whole text from one stage of escaping (or decoding) to the next |
| Escape.ReplaceSkip | script.js:165-169 | `replaceAll` copies text in which the pattern's first character never occurs |
| Records.FindStamp | script.js:150 | The index `findIndex` returns is the first record with the given stamp; none before it has that stamp; the length stands for -1 |
| Records.FindOwnStamp | script.js:149-150 | Searching for the clicked record's own stamp stops at that record or before it, and exactly at it when stamps are distinct |
| Records.StampCollision | script.js:150 | With a repeated stamp, the search lands on an earlier record that belongs to someone else and is referenced |
| Records.ReplaceKeeps | script.js:106 | Replacing a record by one with the same stamp keeps stamps distinct, and keeps the list tidy when the new record is tidy |
| Records.Replace | script.js:130-133 | The in-place update changes only the record at the position and keeps both list invariants |
| Records.RemoveKeeps | script.js:151 | Splicing out one record keeps stamps distinct and the list tidy |
| Records.AppendKeeps | script.js:52 | Pushing a tidy record keeps the list tidy, and pushing one with an unused stamp keeps stamps distinct |
| View.SerialKey | script.js:80 | `Number(si)` for a serial of decimal digits; SerialKeyAppend and SerialKeyLeadingZero state its decimal value |
| View.SerialKeyAppend | script.js:80 | Appending a digit to a decimal serial multiplies its value by ten and adds the digit |
| View.SerialKeyLeadingZero | script.js:80 | A leading zero leaves a decimal serial's value unchanged, so "007" and "7" sort together |
| View.Serial | script.js:80 | The sort key of a record, its serial's value; TableSpec states the order it gives |
| View.SortBy | script.js:80 | The sorted copy is in ascending key order and is a permutation of the list (same multiset) |
| View.SortStable | script.js:80 | The sort is stable: for every key, the records with that key keep their order in the list |
| View.InsertSorted | script.js:80 | Inserting into a sorted list keeps it sorted |
| View.Insert | script.js:80 | Insertion adds exactly the one record to the multiset |
| View.SelectMembers | script.js:82-86 | The drawn rows are a sub-multiset of the list: a record the filter keeps appears as often as in the list, any other not at all |
| View.SelectAll | script.js:83 | An empty filter draws every row |
| View.SelectSorted | script.js:80-86 | Sorting then filtering, as `renderTable` does, gives the same rows as filtering then sorting |
| View.SearchText | script.js:84 | The lower-cased `name topic id` text a row is searched in; Keep and TableSpec use it |
| View.Keep | script.js:83-85 | The row test; KeepIsIncludes and TableSpec state what it keeps |
| View.SearchFilter | script.js:58 | The search box's trimmed, lower-cased text; SearchIgnoresCase states that case does not matter |
| View.Table | script.js:78-86 | The rows `renderTable` draws; TableSpec and TableUnfiltered state what they are |
| View.KeepIsIncludes | script.js:83-85 | The `if (filter)` shortcut agrees with the `includes` test, since every text includes "" |
| View.SearchIgnoresCase | script.js:58 | Typing the search in another (ASCII) case gives the same filter |
| View.TableSpec | script.js:78-86 | The drawn table is sorted by serial number and holds exactly the matching records with their multiplicity. Records with equal serials keep their list order. It equals the sorted list of matching records |
| View.TableUnfiltered | script.js:78-83 | With an empty search the table is the whole list sorted by serial number |
| StudentLedger.Ledger.constructor | script.js:4-5 | Starts with the saved list, or an empty one, and with no active ID |
| StudentLedger.Ledger.SetIdentity | script.js:27-32 | A blank ID fails with EmptyIdentity and changes nothing; otherwise the trimmed ID becomes current. The list is untouched. The invariant is kept |
| StudentLedger.Ledger.Create | script.js:35-52 | It fails with NoActiveIdentity without an ID and with MissingField if a trimmed field is blank, and succeeds exactly otherwise. On success it appends one record with the trimmed fields, owned by the current ID, unreferenced and stamped `now`. On failure nothing changes. It keeps both invariants, given an unused stamp |
| StudentLedger.Ledger.ToggleReference | script.js:105-107 | Anyone flips the flag of the clicked record, and nothing else changes. Both invariants are kept |
| StudentLedger.Ledger.Edit | script.js:116-134 | It fails with NoActiveIdentity, with NotOwner for another ID, or with Cancelled when a prompt is cancelled, and succeeds exactly otherwise. On success the four fields become the trimmed answers. Owner, flag and stamp are kept. Failures change nothing. Both invariants are kept |
| StudentLedger.Ledger.Delete | script.js:143-152 | It fails with NoActiveIdentity, NotOwner or RecordReferenced, or with Cancelled when not confirmed, and succeeds exactly otherwise. On success the first record with the clicked record's stamp is spliced out, and with distinct stamps that is the clicked record. Both invariants are kept |
| StudentLedger.Ledger.ClearAll | script.js:61-64 | After confirmation the list is empty, whoever owns the records; without it nothing changes |

## Left out

- Local storage and JSON: loading happens once, and the saved list is the constructor's argument. `saveAndRender` is not modelled: saving is I/O, and drawing is the DOM. The model does not check that a loaded list has the record shape.
- DOM: the model does not build the table, label the buttons or show the current ID. The alert text becomes the `Error` value a handler returns.
- Dialogs: `confirm` and `prompt` are arguments. A `prompt` asked after an earlier one was cancelled is never shown, and the model ignores its argument.
- Clock: `Date.now()` is the `now` argument. Distinct stamps are kept only when `now` is unused, which the browser's clock does not guarantee.
- StudentLedger.Ledger.Delete: the `i >= 0` test of the splice always passes here, because the clicked record is in the list. A button left over from a record that is gone, which would make `findIndex` return -1, is not modelled.
- Records are values, and the clicked record is its position in the stored list. The model does not show that a button's closure holds the object itself. Re-rendering after every change keeps those two the same.
- View.Serial: `Number(si)` is modelled only for strings of decimal digits (the empty string gives 0). Every other string is ordered as 0. JavaScript would accept surrounding white space, signs, decimals, exponents and hex, and gives NaN for other text, which makes the comparator inconsistent. Numbers beyond 2^53 lose precision in JavaScript but not in the model.
- Strings: JavaScript strings are sequences of UTF-16 code units, while a Dafny `string` holds Unicode scalar values, so a lone surrogate cannot be represented.
- Text.Lower: `toLowerCase` is modelled on ASCII letters only. JavaScript's full Unicode case mapping is left out.
- `String(text)` in `escapeHtml` is the identity, because every field is a string.
- After any change, `saveAndRender` redraws the table with no filter even though the search box keeps its text. The model's `Table` is a function of the filter, and the model does not say which filter is shown after a change.
- The invariant `Valid()` (trimmed ID, and tidy records with owners) is preserved by every handler. It is established only if the loaded list already satisfies it.
- ClearAll removes records owned by others and referenced records. This is what the code does.
