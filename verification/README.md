# ember-spservices: the data-shaping layer, modelled in Dafny

ember-spservices is an Ember add-on that wraps the jQuery.SPServices SOAP
client for SharePoint. Its own logic is small and is what this project models:

- `SpServicesService.getCurrentUser` asks the library for the current user's
  fields (ID, Name, Title and EMail unless the caller names others). It then
  stores each value under a renamed key: `ID` becomes `id`, and every other
  key is camelized.
- `SpServicesService.getGroupCollectionFromUser` runs the synchronous
  `GetGroupCollectionFromUser` operation. It turns every `Group` element of
  the response into a record with five keys, copied from a fixed table of
  attribute names.
- `SpServicesService.getVersionCollection` does nothing unless the library,
  list id, item id and field name are all truthy. Otherwise it runs the
  asynchronous `GetVersionCollection` operation and turns every `Version`
  element into a `FieldVersionObject`.
- Both collection methods hand the raw response and status to `results`
  when it is a function. When it is an array, they push the records onto it
  in document order. When it is left out, they do nothing.
- `FieldVersionObject` stores `value`, `modified` and `editor`, all null by
  default. It derives two properties. `_editorId` is the editor descriptor
  up to its first `;#`. `_modified` is the epoch milliseconds of the
  timestamp.

## Layout

| file | module | what it holds |
|---|---|---|
| js.dfy | `Js` | JavaScript primitive values (`JsValue`), `Option`, truthiness |
| strings.dfy | `Strings` | `split` with a non-empty separator, `join`, camelize on separator-free keys |
| timestamp.dfy | `Timestamp` | the `YYYY-MM-DDTHH:MM:SSZ` form: parse, canonical text, days-from-civil |
| documents.dfy | `Documents` | a parsed response as elements with attributes; `Attr` as the stand-in for jQuery's `attr`, `find`, the `each`/`pushObject` loop |
| field_version.dfy | `FieldVersionObject` | the record, `create`, `_editorId`, `_modified` |
| sp_services.dfy | `SpServices` | the library as a parameter, the three service methods, result dispatch |

The library is a value of type `Library` and is passed in as an argument.
Its `call` maps a request (operation, async flag, parameters) to the response
and status that the library passes to `completefunc`. Its `currentUser` is
SPGetCurrentUser. A method's outcome records the request it made, so its
contract can say what was sent and what was done with the answer.

## Model

| member | source | states |
|---|---|---|
| Strings.Split | addon/objects/field-version.js:74-75 | `split` always returns at least one piece, so the `array.length` test cannot fail |
| Strings.JoinSplit | addon/objects/field-version.js:74 | joining the pieces of a split with the separator gives back the original string |
| Strings.SplitFirstPiece | addon/objects/field-version.js:74-76 | the first piece is exactly the text before the first occurrence of the separator, or the whole string when there is none |
| Strings.PrefixBeforeFirstUnique | addon/objects/field-version.js:74-76 | only one string is the text before the first separator |
| Strings.PrefixBeforeFirstHasNoSeparator | addon/objects/field-version.js:74-76 | the text before the first separator holds no separator |
| Strings.Camelize | addon/services/sp-services.js:173 | camelize keeps the length, lower-cases a capital at the start or after a slash, and keeps every other character |
| Strings.CamelizePascal | addon/services/sp-services.js:173 | on a PascalCase key camelize only lower-cases the first letter |
| Timestamp.Parse | addon/objects/field-version.js:58-61 | a timestamp is read only from text of the Z form naming a real date and time, and that text is the timestamp's canonical form |
| Timestamp.ParseFormat | addon/objects/field-version.js:58-61 | every valid timestamp reads back from its canonical Z-form text |
| Timestamp.NextDayIsOneLater | addon/objects/field-version.js:58-61 | the day count is a calendar: the next day, including across month and year ends and leap days, is one day later |
| Timestamp.EpochIsDayZero | addon/objects/field-version.js:58-61 | 1970-01-01 is day 0 |
| Documents.Find | addon/services/sp-services.js:199 | `find` selects exactly the document's elements with the tag |
| Documents.FindConcat | addon/services/sp-services.js:199 | `find` keeps document order: finding in two parts in sequence is finding in the first, then the second |
| Documents.AppendEach | addon/services/sp-services.js:199-205 | the `each`/`pushObject` loop appends exactly one built record per found element, in order, and leaves earlier entries untouched |
| FieldVersionObject.CreateOfOwnProperties | addon/objects/field-version.js:22-48 | `create` takes each of value, modified and editor from what it is passed and keeps nothing else: creating from an object's own three properties rebuilds that object |
| FieldVersionObject.CreateWithoutProperties | addon/objects/field-version.js:22-48 | a fresh object holds null in value, modified and editor; it has no editor id and a `_modified` of 0 |
| FieldVersionObject.EditorId | addon/objects/field-version.js:71-80 | `_editorId` is undefined exactly for a falsy editor, throws for a truthy non-string, and otherwise is the descriptor up to its first `;#` |
| FieldVersionObject.EditorIdOfText | addon/objects/field-version.js:72-77 | for a non-empty descriptor the id is defined, is a prefix holding no `;#`, is the whole text when there is no `;#`, and is empty when the text starts with `;#` |
| FieldVersionObject.EditorIdOfDescriptor | addon/objects/field-version.js:39-43 | any descriptor beginning `11;#`, the documented one included, has id "11" |
| FieldVersionObject.ModifiedMillis | addon/objects/field-version.js:58-61 | `_modified` is NaN exactly for undefined or an out-of-range number, and any time value lies within the TimeClip range. Only text that is not the canonical Z-form text of a real date and time is left undetermined |
| FieldVersionObject.ModifiedOfTimestamp | addon/objects/field-version.js:58-61 | a timestamp in Z form gives its epoch milliseconds |
| FieldVersionObject.ModifiedExample | tests/unit/objects/field-version-test.js:11-15 | `2015-11-13T10:20:02Z` gives 1447410002000 |
| SpServices.RenameDefaults | addon/services/sp-services.js:172-174 | ID, Name, Title and EMail are stored as id, name, title and eMail |
| SpServices.RenameCollision | addon/services/sp-services.js:172-174 | two different PascalCase keys rename alike exactly when they are `ID` and `Id` |
| SpServices.UserHash | addon/services/sp-services.js:172-174 | the hash's keys are exactly the renamed response keys |
| SpServices.UserHashValues | addon/services/sp-services.js:172-174 | each value is stored unchanged under its renamed key unless a later key renames the same |
| SpServices.UserHashSize | addon/services/sp-services.js:172-174 | distinct PascalCase response keys without the pair ID/Id give exactly one hash key each |
| SpServices.GetCurrentUser | addon/services/sp-services.js:164-176 | no library gives nothing. Without field names the request is exactly ID, Name, Title, EMail; given names are sent unchanged. The result holds the renamed keys and their values |
| SpServices.CurrentUserDefaults | tests/unit/services/sp-services-test.js:12-37 | for the four default fields the user has exactly the keys id, name, title and eMail with the response's values |
| SpServices.Complete | addon/services/sp-services.js:193-209 | results left out: nothing happens. A callback gets the unchanged response and status once. An array gets one record per element of the tag, in order, or nothing when the body is absent |
| SpServices.GroupRecordOf | addon/services/sp-services.js:186-203 | a group record has exactly the keys id, name, description, ownerId and ownerIsUser, holding the raw text of ID, Name, Description, OwnerID and OwnerIsUser |
| SpServices.GetGroupCollectionFromUser | addon/services/sp-services.js:185-211 | the request is always a synchronous GetGroupCollectionFromUser with the login name. A missing library throws. The completion dispatches on `results`, and `responseXML` yields group records |
| SpServices.GroupRecordOfComplete | addon/services/sp-services.js:199-203 | a Group element with all five attributes becomes the record holding exactly their text under id, name, description, ownerId and ownerIsUser |
| SpServices.GroupExample | tests/unit/services/sp-services-test.js:60-106 | the two groups of the example response are found in order and become two records holding all ten attribute values as text, appended to an empty array in that order |
| SpServices.VersionRecord | addon/services/sp-services.js:263-269 | a version record takes `value` from the requested field's attribute, and `modified`/`editor` from the Modified and Editor attributes |
| SpServices.GetVersionCollection | addon/services/sp-services.js:249-274 | no call is made exactly when the library, list id, item id or field name is falsy (so "" and 0 count as missing). Otherwise the request is an asynchronous GetVersionCollection with the three parameters, and `responseText` yields one FieldVersion per Version element |

## Left out

- The jQuery.SPServices library is a parameter. It is foreign code, so the model assumes it calls `completefunc` exactly once; a library that never calls it, or calls it twice, is not modelled.
- XML parsing and jQuery selection are not modelled. `Documents.Attr` stands in for jQuery's `attr`: an element's attribute text, or undefined when the element has no such attribute. A response body is already a sequence of elements in document order, and `find` matches tag names exactly. jQuery's handling of `responseText` as HTML, including case-insensitive tag matching there, is library behaviour.
- Strings.Camelize: models only the second pass of Ember's `camelize`. Its first pass collapses runs of `-`, `_`, `.` or white space and upper-cases the next character. That pass is a no-op on keys without those characters, which is what SharePoint field names look like. For keys that contain them, the model's key differs from Ember's.
- FieldVersionObject.ModifiedMillis: covers the `YYYY-MM-DDTHH:MM:SSZ` form only. Any other text is `Unmodelled`, because its result is engine-dependent `Date` parsing. This covers Z-shaped text naming no real date or time (a month outside 1-12, a day past the month's end, hour 24, a minute or second of 60 or more), other ISO-8601 variants and local-time forms.
- JavaScript numbers are integers here. NaN, infinities and fractions are not modelled.
- `results` is left out, a function or an array. `null` and other non-function objects are not modelled. In the source, such a value fails only when an element is found and `pushObject` is reached. A falsy `responseXML` or a response without matching elements never reaches it, and an Ember object that has `pushObject`, such as an ArrayProxy, works like an array.
- getVersionCollection's field name is a string or absent. A truthy non-string field name reaches jQuery's `attr`, whose behaviour is not modelled.
- The asynchronous scheduling of the version call's completion and the ordering of concurrent calls are not modelled. The model runs the completion as part of the call.
- Ember object machinery is not modelled: computed-property caching, `pushObject` observers, the `this` binding of `results.call`, and extra properties passed to `create`. Records are immutable values and arrays are sequences.

## Notes on the source

- Camelizing is not injective in general. The keys `ID` and `Id` both become `id`, and the later one in `Object.keys` order wins. `RenameCollision` states exactly when this happens. `UserHashValues` and `UserHashSize` carry the no-collision condition.
- The missing-library case differs between the three methods. `getCurrentUser` and `getVersionCollection` return early. `getGroupCollectionFromUser` has no such check, so it calls `undefined` and throws; the model follows the code here.
- Version records are read from `responseText`, while group records are read from `responseXML`. The model follows the code.
