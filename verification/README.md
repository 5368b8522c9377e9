# Office duty card generator — verified model of its rules

The application is a React front end that creates and edits office-duty cards
for employees and vehicles and keeps them in a Firestore collection `cards`.
It can also export the cards as a PDF. Beneath the markup sit small,
deterministic rules, and this project models them in Dafny and proves what
they promise:

- the national-ID (CNIC) mask `00000-0000000-0` and its regular expression;
- the `YYYY-MM` / `Mon-YYYY` month formatters;
- `validateFields` and `checkUniqueness`, over an abstract card store;
- the form's change handlers, including the inline copy of the CNIC mask;
- the dashboard's search filter;
- how `saveCardToFirestore` and `updateCardInFirestore` assemble the record
  and decide whether to upload a photo;
- the export's centre crop, PDF page plan and `backData` merge;
- the create/edit page's `validate` gate, edit prefill, drafts and save flow;
- the notification list.

Modules, one per source file, plus shared foundations:

| module | file | models |
|---|---|---|
| `JsValues` | js_values.dfy | JavaScript values: `undefined`, `null`, text, server timestamp; objects as maps; truthiness; property reads; object literals built from fields |
| `Seqs` | seqs.dfy | an order-preserving filter and its laws |
| `Text` | text.dfy | digits, decimal text of naturals, ASCII lower-casing, substring search |
| `Store` | store.dfy | the `cards` collection: ordered documents, equality queries, `addDoc`, `updateDoc` |
| `CnicFormatter` | cnic_formatter.dfy | src/utils/cnicFormatter.js |
| `DateFormatters` | date_formatters.dfy | src/utils/dateFormatters.js |
| `Validators` | validators.dfy | src/utils/validators.js |
| `EmployeeForm` | employee_form.dfy | src/components/EmployeeForm.jsx |
| `Dashboard` | dashboard.dfy | src/pages/Dashboard.jsx |
| `FirestoreService` | firestore_service.dfy | src/services/firestoreService.js |
| `CardPreview` | card_preview.dfy | src/components/CardPreview.jsx |
| `NotificationContext` | notification_context.dfy | src/context/NotificationContext.jsx |
| `CreateCard` | create_card.dfy | src/pages/CreateCard.jsx |

**Environment as parameters.** Everything that touches the environment is
turned into data:

- **Store.** The Firestore client becomes a `Store.Firestore` value. It
  holds the documents in the order an equality query returns them, the set
  of fields whose queries throw, and a flag for writes that fail. Firestore
  returns such a query in document-id order, and `addDoc`'s ids are random,
  so a new document can land anywhere in that order.
- **Image host.** The Cloudinary upload is a function from the photo to
  `Uploaded(url)` or `UploadFailed`. The id `addDoc` generates, and
  the index it takes among the documents, are a parameter (`Store.NewDoc`).
- **Clock and storage.** `Date.now()` is the `now` parameter.
  `localStorage` is a map from keys to stored text.
- **JSON.** `JSON.parse` and `JSON.stringify` are functions the caller
  supplies.
- **Timers.** A `setTimeout` removal is a pending timer in the
  notification state.
- **Service calls.** Each call the service makes (upload, `addDoc`,
  `updateDoc`) is recorded in order as an `Effect`.

## Model

| member | source | states |
|---|---|---|
| JsValues.Get | src/pages/CreateCard.jsx:26-47 | reading an absent property gives `undefined`, a present one its value |
| JsValues.Project | src/services/firestoreService.js:54-76 | an object literal `{k: src.k, ...}` has exactly the listed keys, each holding what the source holds there, `undefined` included |
| Seqs.Filter | src/pages/Dashboard.jsx:59 | `Array.prototype.filter`: an order-preserving subsequence holding exactly the elements that pass, never longer than the input |
| Seqs.FilterKeepsAll | src/pages/Dashboard.jsx:59-60 | a filter every element passes returns the list unchanged |
| Seqs.FilterIdempotent | src/pages/Dashboard.jsx:59-73 | filtering twice with the same predicate equals filtering once |
| Seqs.FilterAppend | src/context/NotificationContext.jsx:10 | filtering a concatenation is concatenating the filtered parts |
| Text.ParseNatToString | src/utils/dateFormatters.js:10-12 | `Number` of the decimal text of a natural number gives the number back |
| Text.NatToStringParse | src/utils/dateFormatters.js:10-12 | a non-empty digit string without a leading zero renders back as itself after `Number` |
| Text.LowerIdempotent | src/pages/Dashboard.jsx:62 | lower-casing twice equals lower-casing once |
| Text.IncludesIffOccurs | src/pages/Dashboard.jsx:64-71 | `includes` holds exactly when the search text occurs at some offset |
| CnicFormatter.FormatCnic | src/utils/cnicFormatter.js:11-30 | the output holds only digits and dashes; its digits are the first min(13, n) digits of the input, in order; it has at most 15 characters; it is empty exactly when the input has no digit; dashes stand exactly at index 5 (more than 5 digits kept) and index 13 (13 digits kept) |
| CnicFormatter.MatchesCnicRegex | src/utils/cnicFormatter.js:4 | the pattern: five digits, a dash, seven digits, a dash, one digit; `RegexIffCompleteMask` shows it accepts exactly the masks of 13-digit inputs |
| CnicFormatter.FullInputMatchesRegex | src/utils/cnicFormatter.js:4-30 | an input with at least 13 digits is formatted into a string the CNIC regular expression accepts |
| CnicFormatter.FormatIdempotent | src/utils/cnicFormatter.js:12-29 | formatting a formatted CNIC changes nothing |
| CnicFormatter.RegexMatchIsFixedPoint | src/utils/cnicFormatter.js:4-30 | every string the regular expression accepts is left unchanged by the formatter |
| CnicFormatter.RegexIffCompleteMask | src/utils/cnicFormatter.js:4 | the regular expression accepts exactly the formatter's fixed points that carry at least 13 digits, all of them 15 characters long |
| CnicFormatter.FormatThenTypeAgrees | src/utils/cnicFormatter.js:11-30 | typing more text after a formatted value and formatting again gives the same mask as formatting everything typed at once |
| CnicFormatter.FormatThirteenDigits | src/utils/cnicFormatter.js:19-27 | a run of exactly 13 digits is split 5-7-1 by two dashes |
| CnicFormatter.FormatExample | src/utils/cnicFormatter.js:11-30 | "1234567890123" becomes "12345-6789012-3" |
| DateFormatters.ToNumber | src/utils/dateFormatters.js:10 | `Number(piece)` is a number exactly for digit strings, and then the decimal value of the digits; the empty string gives 0 |
| DateFormatters.NumberText | src/utils/dateFormatters.js:10-12 | `Number` reads back the number `${n}` prints, and `${Number(s)}` gives back a digit string without a leading zero |
| DateFormatters.DashIndex | src/utils/dateFormatters.js:10 | the split point is the first dash, or the end when there is none |
| DateFormatters.IndexOf | src/utils/dateFormatters.js:40 | `indexOf` gives the first position holding the name, or -1 exactly when the name is absent |
| DateFormatters.FormatMonthYear | src/utils/dateFormatters.js:8-13 | the result is empty exactly for empty input |
| DateFormatters.FormatYearMonth | src/utils/dateFormatters.js:10-12 | `YYYY-MM` with month 1..12 becomes the month's name, a dash and the year's number |
| DateFormatters.FormatRendered | src/utils/dateFormatters.js:8-13 | a year and a zero-padded month 1..12 render as `Mon-year` |
| DateFormatters.FormatDefaultsToJan | src/utils/dateFormatters.js:11 | a missing or zero month falls back to January |
| DateFormatters.FormatExample | src/utils/dateFormatters.js:8-13 | "2025-01" becomes "Jan-2025" |
| DateFormatters.AddOneYear | src/utils/dateFormatters.js:20-29 | the result is empty exactly for empty input |
| DateFormatters.AdvancedYearMonth | src/utils/dateFormatters.js:22-28 | the `${fy}-${mm}` text of the advanced date; `AddOneYearAdvances`, `AddOneYearKeepsMonth` and `AddOneYearTwoDigitYear` state its year and month |
| DateFormatters.AddOneYearAdvances | src/utils/dateFormatters.js:22-28 | for a year of at least 100 the result is the date one year later, with months past December carried into the year |
| DateFormatters.AddOneYearKeepsMonth | src/utils/dateFormatters.js:22-28 | for a year of at least 100 and a month 1..12 the month is kept and the year grows by exactly one |
| DateFormatters.AddOneYearTwoDigitYear | src/utils/dateFormatters.js:23-25 | years 0..99 are read as 1900..1999 by the date constructor before the year is added |
| DateFormatters.AddOneYearExample | src/utils/dateFormatters.js:20-29 | "2024-12" becomes "Dec-2025" |
| DateFormatters.MonthNamesDistinct | src/utils/dateFormatters.js:1 | the twelve month names are pairwise different |
| DateFormatters.DisplayToInputValue | src/utils/dateFormatters.js:36-45 | text not of the form three letters, a dash and four digits, the empty string included, is returned unchanged |
| DateFormatters.MatchesDisplayRegex | src/utils/dateFormatters.js:38 | three ASCII letters, a dash and four digits; `DisplayInputRoundTrip` shows every such value with a known month survives the trip to the input format and back |
| DateFormatters.DisplayParsesMonth | src/utils/dateFormatters.js:38-42 | `MONTH_NAMES[i]-YYYY` becomes `YYYY-` and the zero-padded i+1 |
| DateFormatters.DisplayUnknownMonth | src/utils/dateFormatters.js:38-42 | three letters that are not a month name give month "00" |
| DateFormatters.InputDisplayRoundTrip | src/utils/dateFormatters.js:8-45 | for months 01..12 and years 1000..9999, converting `YYYY-MM` to display text and back gives the input |
| DateFormatters.DisplayInputRoundTrip | src/utils/dateFormatters.js:8-45 | for the same range, converting display text to `YYYY-MM` and back gives the display text |
| Validators.CollectRequired | src/utils/validators.js:63-75 | one loop over required fields: a key exactly for each listed missing field, holding its label's required message; the messages of the missing fields in list order; one message per key for a duplicate-free list |
| Validators.ValidateFields | src/utils/validators.js:58-83 | `empErr` is the missing employee fields' required messages, with `cnic` overwritten by the format message when the CNIC is filled but malformed; `vehErr` is the missing vehicle fields' messages; the messages come in loop order and then the format message |
| Validators.OneMessagePerError | src/utils/validators.js:63-80 | there are exactly as many messages as errors: a missing CNIC gets only the required message and a malformed one only the format message |
| Validators.ValidateFieldsKeys | src/utils/validators.js:63-80 | key by key: an employee error exactly for a missing required field or a malformed CNIC, a vehicle error exactly for a missing vehicle field, each with its message |
| Validators.ErrorKeysAreRequiredFields | src/utils/validators.js:58-82 | every error key names a required field of its form |
| Validators.CompleteFormPasses | src/utils/validators.js:58-82 | a form with every required field filled and a well-formed CNIC has no errors and no messages |
| Validators.NoErrorsMeansComplete | src/utils/validators.js:63-80 | the converse: when neither error map has an entry, every required field of both forms is filled in and the CNIC, if given, is well-formed |
| Validators.ValidateEmptyForms | src/utils/validators.js:58-82 | two empty forms give 11 employee errors, 8 vehicle errors and 19 messages; the CNIC error is the required message, not the format one |
| Validators.SetOfDistinct | src/utils/validators.js:5-28 | a duplicate-free field list has as many distinct fields as entries |
| Validators.Lookup | src/utils/validators.js:103-128 | one guarded query inside the `try`: skipped once an earlier query threw or when its guard is false; otherwise recorded; a throw marks the scan failed; a conflict adds the field's error and its message |
| Validators.CheckUniqueness | src/utils/validators.js:96-98 | with serial number, employee code and CNIC all empty the result is empty and nothing is queried |
| Validators.UniquenessScan | src/utils/validators.js:103-131 | the three guarded lookups in source order; `Scan3Errors`, `Scan3Messages` and `Scan3Queries` state which errors, messages and queries they produce |
| Validators.UniquenessErrors | src/utils/validators.js:103-128 | the serial-number error is set exactly when the field is filled, its query answers and the first match is another card (any card when not editing); the employee-code error likewise, provided the serial-number query did not throw; the CNIC error likewise, provided neither earlier query threw; no other key, and each error holds its field's message |
| Validators.UniquenessMessages | src/utils/validators.js:103-131 | the messages are those of the errors found, in lookup order, followed by the generic database message exactly when an issued query threw; errors found before the throw are kept |
| Validators.UniquenessQueries | src/utils/validators.js:103-128 | queries run in source order, each at most once; a field is queried exactly when its guard holds and no earlier query threw; the CNIC is queried only when it matches the regular expression |
| Validators.UniquenessKeysWanted | src/utils/validators.js:103-128 | a uniqueness error names one of the three fields and only one whose query was issued |
| Validators.WantedIsFilled | src/utils/validators.js:103-121 | a queried field is filled in, and a queried CNIC is well-formed |
| Store.Matching | src/utils/validators.js:104-105 | a query's result holds exactly the documents whose field equals the value, in collection order |
| Store.FirstMatch | src/utils/validators.js:105-106 | `snapshot.docs[0].id` is absent exactly when nothing matches, and is otherwise the id of the first matching document |
| Store.AddDoc | src/services/firestoreService.js:83-84 | the write succeeds exactly when writes go through and no field is `undefined`; it then adds one document under the new, unused id at the index that id takes, keeps every other document in its old relative order, and the new id names that document only |
| Store.MergeInto | src/services/firestoreService.js:139-140 | the given fields are merged into the documents with the id, every other document is kept |
| Store.UpdateDoc | src/services/firestoreService.js:139-140 | the update succeeds exactly when writes go through, no field is `undefined` and the document exists; a missing document is `NotFound` |
| Store.UpdateTouchesOnlyTarget | src/services/firestoreService.js:139-140 | after an update, other documents are unchanged and the target holds the written values and keeps its unwritten fields |
| EmployeeForm.HandleChange | src/components/EmployeeForm.jsx:2-4 | the named field is set to the typed text; every other field keeps its value |
| EmployeeForm.InlineCnicMask | src/components/EmployeeForm.jsx:7-24 | the mask computed inline by the CNIC handler equals `formatCNIC` of the same input, for every input |
| EmployeeForm.HandleCnicChange | src/components/EmployeeForm.jsx:7-27 | only the `cnic` field changes, to the formatted mask, which never exceeds the input's `maxLength` of 15 |
| Dashboard.CardOfDoc | src/pages/Dashboard.jsx:25-28 | a card holds every field of its document and an `id`, which is the document id unless the data carries its own `id` |
| Dashboard.FilterCards | src/pages/Dashboard.jsx:59-73 | the result is an order-preserving subsequence of the cards, holding exactly those the search keeps |
| Dashboard.KeepCard | src/pages/Dashboard.jsx:59-73 | the filter callback; `KeptIff` states that it keeps a card exactly when the term is empty or occurs, ignoring ASCII case, in one of the eight search fields |
| Dashboard.AnyFieldMatchesIff | src/pages/Dashboard.jsx:63-72 | the `||` chain holds exactly when one of the listed fields matches |
| Dashboard.SomeFieldOccurs | src/pages/Dashboard.jsx:63-72 | the chain holds exactly when one of the listed fields holds text whose lower-cased form contains the search text |
| Dashboard.KeptIff | src/pages/Dashboard.jsx:59-73 | a card is kept exactly when it is in the list and the term is empty or the lower-cased term occurs in the lower-cased text of one of the eight search fields |
| Dashboard.EmptyTermKeepsAll | src/pages/Dashboard.jsx:60 | an empty search term returns the list unchanged |
| Dashboard.OnlySearchFieldsMatter | src/pages/Dashboard.jsx:64-71 | two cards that agree on the eight search fields are kept or dropped together |
| Dashboard.AbsentFieldsNeverMatch | src/pages/Dashboard.jsx:64-71 | a card without any of the eight fields is shown only for an empty term |
| Dashboard.FilterTwice | src/pages/Dashboard.jsx:59-73 | searching the result again with the same term changes nothing |
| Dashboard.TermCaseIgnored | src/pages/Dashboard.jsx:62 | the letter case of the term does not change the result |
| Dashboard.StoredCaseIgnored | src/pages/Dashboard.jsx:64-71 | the letter case of the stored text does not change whether a field matches |
| FirestoreService.AssembleFacts | src/services/firestoreService.js:54-80 | a record assembled from disjoint key groups has exactly their keys, each with the value of its group |
| FirestoreService.CreateRecord | src/services/firestoreService.js:54-80 | the new card copies the 10 employee and 8 vehicle fields verbatim, holds the photo URL, and is stamped `createdAt`; it has no other key |
| FirestoreService.PhotoEntry | src/services/firestoreService.js:122 | the spread adds `photoUrl` exactly when the URL is truthy |
| FirestoreService.UpdateRecord | src/services/firestoreService.js:110-136 | the update copies the same 18 fields, holds `photoUrl` exactly when the URL is truthy, and is stamped `updatedAt` |
| FirestoreService.SaveCard | src/services/firestoreService.js:44-91 | the promise resolves to the new document's id, and a rejected promise has changed nothing in the collection; `SaveUploadsIffPhoto`, `SavedPhotoUrl`, `UploadFailureWritesNothing` and `SaveInsertsOneCard` state the rest |
| FirestoreService.UpdateCard | src/services/firestoreService.js:100-145 | an update succeeds only for a card that exists, and a rejected promise has changed nothing; `UpdateUploadsIffFreshImage`, `UpdatePhotoUrl` and `UpdateWritesOnlyTarget` state the rest |
| FirestoreService.SaveUploadsIffPhoto | src/services/firestoreService.js:46-84 | on create the photo is uploaded exactly when it is truthy; the upload is the first call and at most one write follows it; without a photo the only call is the write |
| FirestoreService.SavedPhotoUrl | src/services/firestoreService.js:46-66 | the card is written with a `null` URL without a photo, and with the URL the upload returned otherwise |
| FirestoreService.UploadFailureWritesNothing | src/services/firestoreService.js:49-90 | a failed upload makes no write, leaves the store unchanged and rejects with the upload error |
| FirestoreService.SaveInsertsOneCard | src/services/firestoreService.js:44-91 | a successful save adds exactly one document, at the new id's place and under that id only, holding the copied fields; the other documents keep their relative order; the save resolves to the new id |
| FirestoreService.ValidatedRecordIsWritable | src/services/firestoreService.js:54-84 | a form that passes `validateFields` yields a record with no `undefined` field |
| FirestoreService.AssembledHasNoUndefined | src/services/firestoreService.js:54-80 | fields that are all filled in, and defined extra keys, make a record without `undefined` |
| FirestoreService.RecordFieldsAreRequired | src/services/firestoreService.js:56-76 | every copied field is one of the required form fields |
| FirestoreService.UpdateUploadsIffFreshImage | src/services/firestoreService.js:102-140 | on update the photo is uploaded exactly when it is text starting with `data:`, and then before the single write |
| FirestoreService.UpdatePhotoUrl | src/services/firestoreService.js:102-122 | the URL sent is the upload's for a fresh image and the stored `photoUrl` otherwise; the key is left out exactly when that URL is falsy |
| FirestoreService.UpdateWritesOnlyTarget | src/services/firestoreService.js:122-140 | only the document with the given id is written; when no URL is sent the stored one is kept |
| FirestoreService.UpdateFailureKeepsStore | src/services/firestoreService.js:100-145 | a failed update, of the upload or of the write, leaves the collection unchanged |
| CardPreview.CropRect | src/components/CardPreview.jsx:20-35 | a too-wide image keeps its full height from the top edge; any other keeps its full width from the left edge |
| CardPreview.CropFits | src/components/CardPreview.jsx:20-35 | the crop has positive size, lies inside the image, has the target's aspect ratio, is centred, and keeps one full dimension of the image |
| CardPreview.CropIsLargest | src/components/CardPreview.jsx:20-35 | no larger rectangle of the target's aspect ratio fits in the image |
| CardPreview.CanvasDimension | src/components/CardPreview.jsx:14-15 | a canvas dimension is the integer part of the assigned length |
| CardPreview.CreateCroppedImage | src/components/CardPreview.jsx:9-42 | the canvas has the truncated target size, and the crop is drawn onto the whole target box at (0, 0) |
| CardPreview.CroppedImageUndistorted | src/components/CardPreview.jsx:25-37 | the source rectangle and the destination box have the same shape, so the photo is not distorted |
| CardPreview.PhotoCanvas | src/components/CardPreview.jsx:134-139 | the 20 mm by 24 mm photo box is a 75 by 90 pixel canvas with aspect ratio 5:6 |
| CardPreview.PageSize | src/components/CardPreview.jsx:50-56 | a portrait page puts the shorter side across, a landscape page the longer, and the size is the format in one order or the other |
| CardPreview.PagePlan | src/components/CardPreview.jsx:47-189 | one 53.98 by 85.6 mm page per captured face, at least one page, each face placed on its own page; no face leaves a single blank page |
| CardPreview.FullCardFillsPage | src/components/CardPreview.jsx:189 | every face is placed at (0, 0) covering its page exactly |
| CardPreview.CaptureBox | src/components/CardPreview.jsx:63-73 | the wrapper box is positive and has the aspect ratio of the page format it is built from |
| CardPreview.WrapperMatchesPage | src/components/CardPreview.jsx:47-189 | the off-screen wrapper (`h * MM_TO_PX` by `w * MM_TO_PX` pixels) has the shape of the portrait page, and the capture drawn onto the whole page is scaled by one factor on both axes, 1 / `MM_TO_PX` millimetres per pixel |
| CardPreview.Override | src/components/CardPreview.jsx:195-201 | a spread followed by listed fields: the listed fields come from the second object, every other field of the base is kept |
| CardPreview.BackData | src/components/CardPreview.jsx:195-201 | the back of the card has the vehicle form's keys plus the four licence fields; `BackDataFields` states where each value comes from |
| CardPreview.BackDataFields | src/components/CardPreview.jsx:195-201 | the four licence fields come from the employee form even when the vehicle form has its own; every other vehicle field is kept |
| NotificationContext.Remove | src/context/NotificationContext.jsx:9-11 | removal keeps the other entries in order and drops every entry with the id |
| NotificationContext.Add | src/context/NotificationContext.jsx:13-26 | the entry `{id, message, type}` is appended and the id returned; a removal is scheduled exactly when the duration is not zero |
| NotificationContext.Fire | src/context/NotificationContext.jsx:20-22 | a scheduled removal, when it runs, removes its id and leaves the other timers pending |
| NotificationContext.AddDefaults | src/context/NotificationContext.jsx:13 | the type defaults to "info" and the duration to 4000 ms |
| NotificationContext.AddAppends | src/context/NotificationContext.jsx:17 | the list grows by one and the earlier entries are unchanged |
| NotificationContext.RemoveAbsent | src/context/NotificationContext.jsx:10 | removing an id no entry has changes nothing |
| NotificationContext.RemoveTwice | src/context/NotificationContext.jsx:10 | removing twice equals removing once |
| NotificationContext.AddThenRemove | src/context/NotificationContext.jsx:9-26 | adding under an unused id and removing that id restores the list |
| NotificationContext.SameMillisecondRemovedTogether | src/context/NotificationContext.jsx:14-22 | two entries added in the same millisecond share their id, and the first timer removes both |
| CreateCard.Prefill | src/pages/CreateCard.jsx:24-48 | the employee form has exactly the 10 copied fields plus `photoUrl` and `photo`, the vehicle form exactly the 8 copied fields; each copied field holds the card's value, and the stored URL becomes both `photoUrl` and `photo` |
| CreateCard.PrefillPhotoCheck | src/pages/CreateCard.jsx:36-37 | after prefill, the photo-required check passes exactly when the card has a truthy stored URL |
| CreateCard.SavedCardPrefillsForm | src/pages/CreateCard.jsx:24-48 | a saved card read back from the collection prefills the form with the values it was saved from and the uploaded URL |
| CreateCard.SavedItem | src/pages/CreateCard.jsx:51-54 | a stored draft is used exactly when it exists and is not empty |
| CreateCard.LoadDrafts | src/pages/CreateCard.jsx:50-57 | each loaded form is empty or exactly what its stored draft parses to; nothing else is loaded |
| CreateCard.LoadVehicleDraft | src/pages/CreateCard.jsx:52-54 | reading the vehicle draft does not change the employee draft already read |
| CreateCard.PersistDraft | src/pages/CreateCard.jsx:62-72 | a draft is written only when the form has at least one key; `DraftRoundTrip` and `EmptyFormKeepsDraft` state what that means for loading |
| CreateCard.DraftRoundTrip | src/pages/CreateCard.jsx:50-72 | drafts written by the two effects load back unchanged when the encoding is undone by the parser |
| CreateCard.EmptyFormKeepsDraft | src/pages/CreateCard.jsx:63 | an empty form does not erase its stored draft |
| CreateCard.CorruptEmployeeDraft | src/pages/CreateCard.jsx:50-57 | a corrupt employee draft discards both drafts |
| CreateCard.CorruptVehicleDraft | src/pages/CreateCard.jsx:50-57 | a corrupt vehicle draft loses only itself |
| CreateCard.Gate | src/pages/CreateCard.jsx:76-90 | the form passes exactly when the local employee errors, the vehicle errors and the uniqueness errors are all empty; uniqueness errors overwrite local ones; the vehicle errors are shown as computed |
| CreateCard.Validate | src/pages/CreateCard.jsx:74-91 | the form passes exactly when the local employee errors, the vehicle errors and the uniqueness errors are all empty; a thrown lookup, which only adds a message, does not block |
| CreateCard.UniquenessKeysAreFresh | src/pages/CreateCard.jsx:76-80 | a uniqueness error never lands on a field that already has a local error |
| CreateCard.DatabaseFailureAloneDoesNotBlock | src/pages/CreateCard.jsx:79-82 | a throwing database query by itself does not fail validation, though its message is produced |
| CreateCard.InvalidFormCallsNothing | src/pages/CreateCard.jsx:86-110 | a form that fails validation calls neither service function, changes neither store nor drafts, and only posts the error notice |
| CreateCard.HandleSave | src/pages/CreateCard.jsx:103-141 | the save is decided by `validate()`: a failing form makes no service call, stores nothing and leaves the collection as it was |
| CreateCard.Submit | src/pages/CreateCard.jsx:107-140 | a card is stored only for a form that passed, and exactly one notice is posted either way |
| CreateCard.EditCallsUpdate | src/pages/CreateCard.jsx:113-116 | editing calls the update with the edited card's id and never the create |
| CreateCard.CreateCallsSave | src/pages/CreateCard.jsx:117-120 | creating calls the create and never the update |
| CreateCard.DraftsClearedOnlyAfterCreate | src/pages/CreateCard.jsx:117-122 | the drafts are removed after a successful create and only then |
| CreateCard.SaveNotice | src/pages/CreateCard.jsx:116-137 | after a valid form exactly one notice is posted: the success notice with the new id, the update notice, or the error notice when the service fails |
| CreateCard.SavedMessageShape | src/pages/CreateCard.jsx:120 | the create notice shows at most the first 8 characters of the id, followed by an ellipsis |

## Left out

- `uploadImageToCloudinary`'s request building and response decoding (src/services/firestoreService.js:9-36) are network I/O. The upload is a parameter that returns a URL or fails.
- `deleteCardFromFirestore` (src/services/firestoreService.js:152-160) is a single foreign call with no logic of its own.
- The Firebase configuration module is not part of this model. The collection handle `db` is the `Store.Firestore` value.
- `orderBy("createdAt", "desc")` on the dashboard (src/pages/Dashboard.jsx:22): the dashboard's list is taken as given. Server timestamps are not modelled as times.
- Store.AddDoc: the index a new document takes in query-result order is a parameter. Firestore's ordering of document ids, and how the client generates them, are not modelled.
- Loading and errors on the dashboard (`fetchCards`'s loading flag and error text), and `formatDate` with `toLocaleDateString`: state and locale handling, not logic.
- `handlePreview` (src/pages/CreateCard.jsx:93-101) and the 1500 ms form reset after a save: they only set UI state after timers. The reset is represented by the `saved` flag of `CreateCard.SaveOutcome`.
- The loading messages and the `isSaving` flag of the save handler are UI state.
- `onCardCreated` and `onNavigateToDashboard` are navigation callbacks.
- DOM and canvas work in the export:
  - cloning, CSS overrides, image loading and waits;
  - `html2canvas` rasterisation and its scale factor;
  - `jsPDF` calls beyond the page size and image placement;
  - `toDataURL`.
- IEEE double arithmetic: lengths and the crop are exact reals, so rounding in the browser is not modelled.
- CardPreview.CropRect: requires a positive image and target size. For a zero-size image the source divides by zero and draws nothing useful.
- CardPreview.CreateCroppedImage: the image `onload` handler is modelled as running. The source has no `onerror` and no timeout, so a failing image load never resolves.
- Dashboard.FieldMatches: a search field that holds a non-text value other than `null` would make the source throw `TypeError` on `toLowerCase`. The model counts it as no match.
- FirestoreService.FreshImage: a truthy non-text `photo` would make `startsWith` throw in the source. The model counts it as not fresh.
- Unicode case mapping: `toLowerCase` is modelled for ASCII letters only.
- DateFormatters.ToNumber: `Number()` is modelled for plain digit strings only, the empty string giving 0. Whitespace, signs, decimals and exponents are not modelled, and every other string is NaN. Numbers are unbounded: a digit string past 2^53 would be rounded by `Number`, and from 10^21 on `${y}` prints exponent form, so `NumToString` differs from JavaScript there. A month input never holds such a year.
- DateFormatters.AdvancedYearMonth: the JavaScript `Date` range limit (years past 275760) is not modelled.
- DateFormatters.InputDisplayRoundTrip and DateFormatters.DisplayInputRoundTrip: both are stated for four-digit years 1000..9999 only, the range the display pattern accepts.
- `JSON.parse` and `JSON.stringify` are parameters, not a JSON codec. `CreateCard.DraftRoundTrip` assumes the parser undoes the serialiser.
- A `setItem` that throws (a full storage) is not modelled. The source swallows it.
- Timers: a scheduled removal is a pending `Timer` entry that fires when `NotificationContext.Fire` is applied. The `timeoutRef` handle, which only keeps the latest timer and is never read, is not modelled.
- The edited card is represented by its id (`editingId`), which is all `validate` and the save handler read from it apart from the prefilled fields.
- `Login.jsx` (authentication) and `CameraCapture.jsx` (camera access) are browser I/O.
- The presentation components (`CardFront`, `CardBack`, `Navbar`, `Notification`, `Toast`, `Loader`, `VehicleForm`, `App`, `main`) are markup and styling with no rule to state.
