# Personal website manager: message inbox and book form

A Dafny model of the two pieces of logic in the Android app that manages a
personal book list and an inbox of messages, both backed by a hosted
document database.

- **Message inbox** (`MessagesScreen.kt`, module `MessagesScreen`). The screen
  keeps a local list of `(document id, (createdAt, sender, content))`. A live
  snapshot listener merges each snapshot into that list. A document is
  appended only when no listed entry carries the same value triple, so the
  list is de-duplicated by triple and not by id. An error notification leaves
  the list alone. A swipe asks the store to delete the document, and only a
  confirmed delete removes every entry with that id from the list. Each card
  shows its time as `dd-MM-yyyy HH:mm`, formatted from the epoch seconds cut
  out of the `createdAt` text with `substringAfter("seconds=")`,
  `substringBefore(",")` and `toLong()`. Any failure shows
  `"Invalid timestamp"`.
- **Book form** (`AddBooksScreen.kt`, module `AddBooksScreen`). Text fields,
  a status dropdown (`"Status"`, then `"Reading"` or `"Read"`), a cover image
  picker and an "Add Book" button. The button is enabled when title and
  summary are filled in and no insert is pending. It refuses an empty cover.
  Otherwise it marks the form as adding and hands the store a record. The
  record's four list fields are `split(",").filter { it.isNotEmpty() }` of
  the typed text.
- **Kotlin text functions** (module `KotlinText`). These are the JVM
  semantics the two screens rely on. `indexOf` finds the first occurrence
  of a delimiter, or none. `substringAfter` and `substringBefore` return the
  whole text when `indexOf` finds no delimiter.
  `split(",")` keeps empty pieces. `toLong()` takes an optional sign, at
  least one digit and a value within the signed 64-bit range.
  `Long.toInt()` keeps the low 32 bits.

The message list is a class (`MessageList`) whose `msgs` sequence the methods
reassign. `MergeSnapshot` is the snapshot loop with its invariant. It is
proved equal to the function `Merged`. `Merged` in turn is proved equal to an
independent reference selection, `Fresh`. The prefix, order, no-duplicate,
coverage and idempotence properties follow from that. `MergeSequential`,
`EqualTriplesCollapse` and `ChangedDocumentListedTwice` are proved from
`Merged` and `Step` directly. The form is a class (`BookForm`) with one field per piece of
mutable state that an event handler of the screen assigns. Each event
handler is a method whose contract gives the whole new state through
`State()`.

Three behaviours of the code are easy to miss:
- Text without `seconds=` is not always rejected. Both substring calls fall
  back to the whole text, so `"123"` reads as 123 seconds
  (`BareNumberAccepted`, `BareTextParsedWhole`).
- Removal takes out every entry with the id, not a single one. An edited
  document is listed again under the same id (`ChangedDocumentListedTwice`).
- An unset status is not empty. It is stored as the literal `"Status"`.

## Model

| member | source | states |
|---|---|---|
| KotlinText.IndexOf | app/src/main/java/com/krishnajeena/personalwebsitemanager/ui/screens/MessagesScreen.kt:173 | the result is an occurrence of the delimiter with none before it, or there is no occurrence at all |
| KotlinText.SubstringAfter | app/src/main/java/com/krishnajeena/personalwebsitemanager/ui/screens/MessagesScreen.kt:173 | the text is what precedes the first delimiter, then the delimiter, then the result; without a delimiter the result is the whole text |
| KotlinText.SubstringBefore | app/src/main/java/com/krishnajeena/personalwebsitemanager/ui/screens/MessagesScreen.kt:173 | the result, then the delimiter, is a prefix of the text and holds no earlier delimiter; without a delimiter the result is the whole text |
| KotlinText.ParseLong | app/src/main/java/com/krishnajeena/personalwebsitemanager/ui/screens/MessagesScreen.kt:173 | a parsed value is in the signed 64-bit range, the text is an optional sign and then digits only, and the sign of the value matches the text; ParseLongSignedDigits gives the converse |
| KotlinText.ParseLongSignedDigits | app/src/main/java/com/krishnajeena/personalwebsitemanager/ui/screens/MessagesScreen.kt:173 | an optional `+` or `-` and one or more digits is accepted exactly when its signed value fits in 64 bits, and then yields that value; leading zeros, `+5` and `-0` included |
| KotlinText.ParseLongText | app/src/main/java/com/krishnajeena/personalwebsitemanager/ui/screens/MessagesScreen.kt:173 | `toLong` reads back exactly every 64-bit number written in decimal |
| KotlinText.DecimalDigitsValue | app/src/main/java/com/krishnajeena/personalwebsitemanager/ui/screens/MessagesScreen.kt:173 | the digits written for a number denote that number |
| KotlinText.LongTextHasNoComma | app/src/main/java/com/krishnajeena/personalwebsitemanager/ui/screens/MessagesScreen.kt:173 | a number written in decimal never contains a comma, so the seconds field ends at the comma after it |
| KotlinText.Split | app/src/main/java/com/krishnajeena/personalwebsitemanager/ui/screens/AddBooksScreen.kt:218 | `split(",")` yields at least one piece and no piece contains a comma |
| KotlinText.JoinSplit | app/src/main/java/com/krishnajeena/personalwebsitemanager/ui/screens/AddBooksScreen.kt:218 | joining the pieces of a split with commas gives back the text |
| KotlinText.SplitJoin | app/src/main/java/com/krishnajeena/personalwebsitemanager/ui/screens/AddBooksScreen.kt:218 | splitting a comma-join of one or more comma-free pieces gives back the pieces, empty ones included |
| KotlinText.SplitAtComma | app/src/main/java/com/krishnajeena/personalwebsitemanager/ui/screens/AddBooksScreen.kt:218 | the pieces of `x,y` are the pieces of `x` followed by the pieces of `y` |
| KotlinText.LongToInt | app/src/main/java/com/krishnajeena/personalwebsitemanager/ui/screens/AddBooksScreen.kt:50 | the id is in the 32-bit range, congruent to the clock reading modulo 2^32, and equal to it when it fits |
| MessagesScreen.FieldText | app/src/main/java/com/krishnajeena/personalwebsitemanager/ui/screens/MessagesScreen.kt:60-62 | a field present in the document reads as its text, and a missing field reads as "null" |
| MessagesScreen.ToMessage | app/src/main/java/com/krishnajeena/personalwebsitemanager/ui/screens/MessagesScreen.kt:60-64 | the entry for a document carries the document id and the texts of its `createdAt`, `sender` and `content` fields |
| MessagesScreen.AsMessages | app/src/main/java/com/krishnajeena/personalwebsitemanager/ui/screens/MessagesScreen.kt:59-62 | one entry per snapshot document, entry i being the entry built from document i |
| MessagesScreen.HasKey | app/src/main/java/com/krishnajeena/personalwebsitemanager/ui/screens/MessagesScreen.kt:63 | the scan finds a triple exactly when it is among the triples of the listed entries |
| MessagesScreen.Step | app/src/main/java/com/krishnajeena/personalwebsitemanager/ui/screens/MessagesScreen.kt:63-64 | one turn of the loop keeps the list as a prefix, adds at most the document's own entry, adds it exactly when its triple was not listed, and leaves the triple listed |
| MessagesScreen.Merged | app/src/main/java/com/krishnajeena/personalwebsitemanager/ui/screens/MessagesScreen.kt:59-66 | the loop over a snapshot keeps the old list as a prefix and adds at most one entry per document |
| MessagesScreen.FreshAvoidsSeen | app/src/main/java/com/krishnajeena/personalwebsitemanager/ui/screens/MessagesScreen.kt:63-64 | the reference selection holds no triple already seen and no triple twice |
| MessagesScreen.FreshCoversNewTriples | app/src/main/java/com/krishnajeena/personalwebsitemanager/ui/screens/MessagesScreen.kt:59-66 | the reference selection holds exactly the triples of the snapshot not yet seen |
| MessagesScreen.FreshInSnapshotOrder | app/src/main/java/com/krishnajeena/personalwebsitemanager/ui/screens/MessagesScreen.kt:59-66 | the reference selection is a subsequence of the snapshot's documents |
| MessagesScreen.MergedIsFreshAppended | app/src/main/java/com/krishnajeena/personalwebsitemanager/ui/screens/MessagesScreen.kt:59-66 | the snapshot loop leaves the old list followed by the reference selection of new triples |
| MessagesScreen.MergeAppendsInSnapshotOrder | app/src/main/java/com/krishnajeena/personalwebsitemanager/ui/screens/MessagesScreen.kt:59-65 | the old list is a prefix of the new one, and the appended entries are snapshot documents in snapshot order |
| MessagesScreen.MergeSkipsListedTriples | app/src/main/java/com/krishnajeena/personalwebsitemanager/ui/screens/MessagesScreen.kt:63 | no appended entry carries a triple that was already listed, and every listed entry, id included, is unchanged |
| MessagesScreen.MergeKeepsKeysDistinct | app/src/main/java/com/krishnajeena/personalwebsitemanager/ui/screens/MessagesScreen.kt:63-64 | a list with distinct triples still has distinct triples after a merge |
| MessagesScreen.MergeCoversSnapshot | app/src/main/java/com/krishnajeena/personalwebsitemanager/ui/screens/MessagesScreen.kt:59-66 | after a merge the listed triples are those of the old list together with those of the snapshot |
| MessagesScreen.MergeIdempotent | app/src/main/java/com/krishnajeena/personalwebsitemanager/ui/screens/MessagesScreen.kt:59-66 | merging the same snapshot twice in a row changes nothing the second time |
| MessagesScreen.MergeSequential | app/src/main/java/com/krishnajeena/personalwebsitemanager/ui/screens/MessagesScreen.kt:53-66 | two snapshots in a row merge like one snapshot with the documents of both |
| MessagesScreen.EqualTriplesCollapse | app/src/main/java/com/krishnajeena/personalwebsitemanager/ui/screens/MessagesScreen.kt:63 | a second document with an equal triple adds nothing, whatever its id |
| MessagesScreen.ChangedDocumentListedTwice | app/src/main/java/com/krishnajeena/personalwebsitemanager/ui/screens/MessagesScreen.kt:63-64 | a document whose triple changed is appended again under the same id |
| MessagesScreen.Without | app/src/main/java/com/krishnajeena/personalwebsitemanager/ui/screens/MessagesScreen.kt:88 | no entry with the id remains, every other entry keeps its multiplicity, and the result is a subsequence of the list |
| MessagesScreen.WithoutAbsentId | app/src/main/java/com/krishnajeena/personalwebsitemanager/ui/screens/MessagesScreen.kt:88 | removing an id that is not listed is a no-op |
| MessagesScreen.WithoutKeepsKeysDistinct | app/src/main/java/com/krishnajeena/personalwebsitemanager/ui/screens/MessagesScreen.kt:88 | removal keeps the triples distinct |
| MessagesScreen.SubsequenceKeepsKeysDistinct | app/src/main/java/com/krishnajeena/personalwebsitemanager/ui/screens/MessagesScreen.kt:88 | leaving entries out of a list with distinct triples keeps them distinct |
| MessagesScreen.MessageList.constructor | app/src/main/java/com/krishnajeena/personalwebsitemanager/ui/screens/MessagesScreen.kt:47 | the screen starts with an empty list |
| MessagesScreen.MessageList.MergeSnapshot | app/src/main/java/com/krishnajeena/personalwebsitemanager/ui/screens/MessagesScreen.kt:59-66 | the loop leaves `Merged(old list, snapshot)` and keeps the triples distinct |
| MessagesScreen.MessageList.OnNotification | app/src/main/java/com/krishnajeena/personalwebsitemanager/ui/screens/MessagesScreen.kt:53-66 | an error or a missing snapshot leaves the list unchanged, and otherwise the snapshot is merged |
| MessagesScreen.MessageList.RemoveById | app/src/main/java/com/krishnajeena/personalwebsitemanager/ui/screens/MessagesScreen.kt:88 | the list becomes `Without(old list, id)` and keeps its triples distinct |
| MessagesScreen.MessageList.OnDeleteResult | app/src/main/java/com/krishnajeena/personalwebsitemanager/ui/screens/MessagesScreen.kt:185-198 | a confirmed delete removes the id locally, and a failed delete leaves the list unchanged |
| MessagesScreen.SecondsText | app/src/main/java/com/krishnajeena/personalwebsitemanager/ui/screens/MessagesScreen.kt:173 | the text cut out for the seconds never contains a comma and is no longer than the timestamp text |
| MessagesScreen.EpochSeconds | app/src/main/java/com/krishnajeena/personalwebsitemanager/ui/screens/MessagesScreen.kt:173 | extracted seconds always fit in a signed 64-bit integer |
| MessagesScreen.TimestampLabel | app/src/main/java/com/krishnajeena/personalwebsitemanager/ui/screens/MessagesScreen.kt:168-176 | when the seconds cannot be parsed or formatting fails, the label is exactly "Invalid timestamp"; otherwise it is the formatted time; nothing is thrown |
| MessagesScreen.StoreTimestampSeconds | app/src/main/java/com/krishnajeena/personalwebsitemanager/ui/screens/MessagesScreen.kt:173 | the store's text `Timestamp(seconds=N,…)` yields N for every 64-bit N, whatever follows the comma |
| MessagesScreen.SecondsFieldRead | app/src/main/java/com/krishnajeena/personalwebsitemanager/ui/screens/MessagesScreen.kt:173 | the text between the first `seconds=` and the next comma of the store's timestamp text is the seconds field |
| MessagesScreen.BareTextParsedWhole | app/src/main/java/com/krishnajeena/personalwebsitemanager/ui/screens/MessagesScreen.kt:173 | text with neither `seconds=` nor a comma is parsed as a whole |
| MessagesScreen.BareNumberAccepted | app/src/main/java/com/krishnajeena/personalwebsitemanager/ui/screens/MessagesScreen.kt:173 | a plain decimal number such as "123" is accepted as that many seconds |
| AddBooksScreen.DropEmpty | app/src/main/java/com/krishnajeena/personalwebsitemanager/ui/screens/AddBooksScreen.kt:218 | the result holds exactly the non-empty strings of the input and no empty one |
| AddBooksScreen.DropEmptyConcat | app/src/main/java/com/krishnajeena/personalwebsitemanager/ui/screens/AddBooksScreen.kt:218 | filtering keeps order and multiplicity: the filter of two lists joined is the two filters joined |
| AddBooksScreen.ListField | app/src/main/java/com/krishnajeena/personalwebsitemanager/ui/screens/AddBooksScreen.kt:218-221 | no item of a list field is empty or contains a comma |
| AddBooksScreen.DropEmptyOfNonEmpty | app/src/main/java/com/krishnajeena/personalwebsitemanager/ui/screens/AddBooksScreen.kt:218 | filtering a list with no empty string leaves it unchanged |
| AddBooksScreen.ListFieldRoundTrip | app/src/main/java/com/krishnajeena/personalwebsitemanager/ui/screens/AddBooksScreen.kt:218 | non-empty, comma-free items joined with commas come back unchanged and untrimmed, and an empty field gives no items |
| AddBooksScreen.ListFieldComma | app/src/main/java/com/krishnajeena/personalwebsitemanager/ui/screens/AddBooksScreen.kt:218 | the items of `x,y` are the items of `x` followed by the items of `y` |
| AddBooksScreen.ListFieldIgnoresEmptyPieces | app/src/main/java/com/krishnajeena/personalwebsitemanager/ui/screens/AddBooksScreen.kt:218 | a doubled comma gives the same items as a single one |
| AddBooksScreen.BookForm.constructor | app/src/main/java/com/krishnajeena/personalwebsitemanager/ui/screens/AddBooksScreen.kt:50-60 | all text is empty, the status is "Status", the form is neither adding nor expanded nor valid, and the id is the truncated clock reading |
| AddBooksScreen.BookForm.FormValid | app/src/main/java/com/krishnajeena/personalwebsitemanager/ui/screens/AddBooksScreen.kt:64 | the form is valid exactly when title and summary are non-empty; cover, status and the list fields are not read |
| AddBooksScreen.BookForm.SubmitEnabled | app/src/main/java/com/krishnajeena/personalwebsitemanager/ui/screens/AddBooksScreen.kt:238 | the button is enabled exactly when title and summary are non-empty and no insert is pending |
| AddBooksScreen.BookForm.Record | app/src/main/java/com/krishnajeena/personalwebsitemanager/ui/screens/AddBooksScreen.kt:212-222 | the record carries the form's id, title, cover, status and summary, and its four list fields are the split-and-filtered typed text, with no empty item and no item holding a comma |
| AddBooksScreen.BookForm.Edit | app/src/main/java/com/krishnajeena/personalwebsitemanager/ui/screens/AddBooksScreen.kt:81-196 | only the edited field changes, and validity changes only through title or summary |
| AddBooksScreen.BookForm.ToggleMenu | app/src/main/java/com/krishnajeena/personalwebsitemanager/ui/screens/AddBooksScreen.kt:122 | the icon negates `expanded` and changes nothing else |
| AddBooksScreen.BookForm.DismissMenu | app/src/main/java/com/krishnajeena/personalwebsitemanager/ui/screens/AddBooksScreen.kt:132 | dismissing sets `expanded` to false and changes nothing else |
| AddBooksScreen.BookForm.ChooseStatus | app/src/main/java/com/krishnajeena/personalwebsitemanager/ui/screens/AddBooksScreen.kt:134-151 | the status becomes "Reading" or "Read" and the menu closes; nothing else changes, validity included |
| AddBooksScreen.BookForm.PressPickImage | app/src/main/java/com/krishnajeena/personalwebsitemanager/ui/screens/AddBooksScreen.kt:95-98 | the picker launches if and only if the cover is empty |
| AddBooksScreen.BookForm.OnCoverUploaded | app/src/main/java/com/krishnajeena/personalwebsitemanager/ui/screens/AddBooksScreen.kt:67-69 | a finished upload sets the cover to the URL and changes nothing else |
| AddBooksScreen.BookForm.PressAddBook | app/src/main/java/com/krishnajeena/personalwebsitemanager/ui/screens/AddBooksScreen.kt:204-238 | a write is issued if and only if title and summary are filled, no insert is pending and the cover is non-empty; without a write nothing changes; with one only `isAdding` turns true, the button disables itself, and the record is the form's with clean list fields |
| AddBooksScreen.BookForm.OnAddResult | app/src/main/java/com/krishnajeena/personalwebsitemanager/ui/screens/AddBooksScreen.kt:227-236 | success and failure both set `isAdding` back to false and change nothing else; only success leaves the screen |

## Left out

- Store and storage calls (`addSnapshotListener`, `add`, `delete`, `putFile`, `downloadUrl`) are foreign SDK calls. Snapshots, delete answers, insert answers and finished uploads are parameters of the methods that react to them.
- A failed image upload and a cancelled picker change nothing on the form, so they have no method.
- Toasts, Compose layout, animation, swipe-to-dismiss and card rendering are user interface.
- The lazy list is keyed by document id (`key = { it.first }`), and Compose requires those keys to be distinct. `ChangedDocumentListedTwice` shows that two entries with the same id are reachable: a document whose triple changes is appended again under its id. Compose's lazy list throws an `IllegalArgumentException` when a key repeats, so the screen crashes instead of skipping the entry. Rendering is not modelled, so the model only shows that the state is reachable.
- `imageUri` (AddBooksScreen.kt:61) is screen state that no handler ever assigns. It stays null, so the preview it guards (AddBooksScreen.kt:105) never shows. It has no field in `BookForm`.
- Formatting epoch seconds as `dd-MM-yyyy HH:mm` in the device's time zone depends on a library and the time zone. It is the parameter `format` of `TimestampLabel`, and `None` stands for that call throwing. This includes the range check of `Instant.ofEpochSecond`.
- Field values of a document are taken as the text their `toString()` gives. Only the missing field, which reads as "null", is modelled.
- The clock behind the book id and the random upload path are nondeterministic. The clock reading is a constructor parameter, and the upload path is not modelled.
- Listener callbacks arrive asynchronously. Each callback is one atomic step here.
- MainActivity.kt, BooksScreen.kt, MeScreen.kt and Book.kt hold navigation, display and a plain record, and are not part of this model.
- KotlinText.ParseLong: accepts only the ASCII digits 0-9. The JVM parser also accepts other Unicode decimal digits.
