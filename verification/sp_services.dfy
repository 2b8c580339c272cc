/**
  SpServicesService: three shortcuts over the jQuery.SPServices library.
  `getCurrentUser` renames the keys of the current user's fields,
  `getGroupCollectionFromUser` turns each `Group` element of the response into
  a five-field record, and `getVersionCollection` turns each `Version` element
  into a FieldVersion. Both collection methods hand the raw response to the
  caller instead when `results` is a function.

  The library is a parameter: a SOAP call that completes with a response and
  a status, and a current-user lookup that returns the user's fields.
*/
module SpServices {
  import opened Js
  import opened Strings
  import opened Documents
  import opened FieldVersionObject

  /** The options object passed to the library, without its `completefunc`:
      the operation's name, whether it runs asynchronously, and the
      operation's own parameters. */
  datatype SoapRequest = SoapRequest(operation: string, async: bool, params: map<string, JsValue>)

  /** The response object the library passes to `completefunc`; each body is
      absent when the response has none. */
  datatype XData = XData(responseXML: Option<Document>, responseText: Option<Document>)

  /** The arguments `completefunc` is called with. */
  datatype Completion = Completion(xData: XData, status: JsValue)

  /** The user's fields as SPGetCurrentUser returns them: keys with their
      values, in `Object.keys` order. */
  type UserFields = seq<(string, JsValue)>

  /** The jQuery.SPServices library: `call` runs a SOAP operation and gives
      what it passes to `completefunc`; `currentUser` is SPGetCurrentUser,
      given the requested field names. */
  datatype Library = Library(call: SoapRequest -> Completion, currentUser: seq<string> -> UserFields)

  /** The `results` argument of the collection methods: left out, a callback
      function, or an array that records are pushed onto. */
  datatype Results<T> = Omitted | Callback | Collection(items: seq<T>)

  /** What `completefunc` did: nothing, one call of the callback with the
      response and status, or the array as it stands afterwards. */
  datatype Effect<T> = NoEffect | CalledBack(xData: XData, status: JsValue) | Appended(items: seq<T>)

  /** How a collection method call ends: it returned before calling the
      library, it threw a TypeError because there is no library to call, or
      it called the library with `request` and completed with `effect`. */
  datatype Outcome<T> = NotCalled | ThrowsTypeError | Called(request: SoapRequest, effect: Effect<T>)

  // ---------------------------------------------------------------------------
  // getCurrentUser

  /** The field names requested when the caller gives none. */
  const DefaultFieldNames: seq<string> := ["ID", "Name", "Title", "EMail"]

  /** The key a response key is stored under: `ID` becomes `id`, every other
      key is camelized. */
  function Rename(key: string): string
  {
    if key == "ID" then "id" else Camelize(key)
  }

  /** The renamed keys of the default fields. */
  lemma RenameDefaults()
    ensures Rename("ID") == "id" && Rename("Name") == "name"
    ensures Rename("Title") == "title" && Rename("EMail") == "eMail"
  {
    RenameCapitalized("Name", "name");
    RenameCapitalized("Title", "title");
    RenameCapitalized("EMail", "eMail");
  }

  /** A key other than `ID` without slashes is stored with only its first
      letter lowered. */
  lemma RenameCapitalized(key: string, renamed: string)
    requires key != "ID" && |key| > 0 && |renamed| == |key|
    requires forall i | 0 <= i < |key| :: key[i] != '/'
    requires renamed[0] == Lower(key[0]) && renamed[1..] == key[1..]
    ensures Rename(key) == renamed
  {
    var r := Camelize(key);
    forall i | 0 <= i < |key|
      ensures r[i] == renamed[i]
    {
      if i > 0 {
        assert key[i - 1] != '/';
        assert renamed[i] == renamed[1..][i - 1];
      }
    }
  }

  /** Two different PascalCase keys are stored under the same key only when
      they are `ID` and `Id`, which both become `id`. */
  lemma RenameCollision(k1: string, k2: string)
    requires PascalKey(k1) && PascalKey(k2) && k1 != k2
    ensures Rename(k1) == Rename(k2) <==> (k1 == "ID" && k2 == "Id") || (k1 == "Id" && k2 == "ID")
  {
    CamelizePascal(k1);
    CamelizePascal(k2);
    if k1 != "ID" && k2 != "ID" {
      if |k1| != |k2| {
        assert |Rename(k1)| != |Rename(k2)|;
      } else if k1[0] != k2[0] {
        assert Rename(k1)[0] != Rename(k2)[0];
      } else {
        var i :| 0 <= i < |k1| && k1[i] != k2[i];
        assert Rename(k1)[i] != Rename(k2)[i];
      }
    } else if k1 == "ID" {
      if Rename(k2) == "id" {
        assert |k2| == 2 && Lower(k2[0]) == 'i' && k2[1] == 'd';
        assert k2 == [k2[0], k2[1]];
      }
    } else {
      if Rename(k1) == "id" {
        assert |k1| == 2 && Lower(k1[0]) == 'i' && k1[1] == 'd';
        assert k1 == [k1[0], k1[1]];
      }
    }
  }

  /** The hash built by `getCurrentUser`: every response key is stored,
      renamed, with its value; a later key overwrites an earlier one that
      renames the same. */
  function UserHash(fields: UserFields): (hash: map<string, JsValue>)
    ensures hash.Keys == set i | 0 <= i < |fields| :: Rename(fields[i].0)
    decreases |fields|
  {
    if fields == [] then map[]
    else
      var n := |fields| - 1;
      var earlier := UserHash(fields[..n]);
      assert forall i | 0 <= i < n :: fields[..n][i] == fields[i];
      earlier[Rename(fields[n].0) := fields[n].1]
  }

  /** A later response key renames to the same key as the one at index `i`. */
  predicate OverwrittenLater(fields: UserFields, i: int)
    requires 0 <= i < |fields|
  {
    exists j | i < j < |fields| :: Rename(fields[j].0) == Rename(fields[i].0)
  }

  /** The value at index `i` reaches the hash unchanged, unless a later key
      overwrites it. */
  lemma {:induction false} UserHashValue(fields: UserFields, i: int)
    requires 0 <= i < |fields| && !OverwrittenLater(fields, i)
    ensures UserHash(fields)[Rename(fields[i].0)] == fields[i].1
    decreases |fields|
  {
    var n := |fields| - 1;
    if i < n {
      NotOverwrittenInPrefix(fields, i);
      UserHashValue(fields[..n], i);
    }
  }

  /** Every value reaches the hash unchanged, unless a later key overwrites it. */
  lemma UserHashValues(fields: UserFields)
    ensures forall i | 0 <= i < |fields| && !OverwrittenLater(fields, i) ::
      UserHash(fields)[Rename(fields[i].0)] == fields[i].1
  {
    forall i | 0 <= i < |fields| && !OverwrittenLater(fields, i)
      ensures UserHash(fields)[Rename(fields[i].0)] == fields[i].1
    {
      UserHashValue(fields, i);
    }
  }

  /** A value no later key overwrites is not overwritten within the earlier
      keys either, and is not overwritten by the last key. */
  lemma NotOverwrittenInPrefix(fields: UserFields, i: int)
    requires 0 <= i < |fields| - 1 && !OverwrittenLater(fields, i)
    ensures var n := |fields| - 1;
      !OverwrittenLater(fields[..n], i) && fields[..n][i] == fields[i] && Rename(fields[n].0) != Rename(fields[i].0)
  {
    var n := |fields| - 1;
    forall j | i < j < n
      ensures Rename(fields[..n][j].0) != Rename(fields[..n][i].0)
    {
      assert fields[..n][j] == fields[j];
    }
  }

  /** The response keys are distinct (they are an object's own keys). */
  predicate DistinctKeys(fields: UserFields)
  {
    forall i, j | 0 <= i < j < |fields| :: fields[i].0 != fields[j].0
  }

  /** The response keys are PascalCase and do not include both `ID` and `Id`. */
  predicate RenameableKeys(fields: UserFields)
  {
    && (forall i | 0 <= i < |fields| :: PascalKey(fields[i].0))
    && (forall i, j | 0 <= i < |fields| && 0 <= j < |fields| :: !(fields[i].0 == "ID" && fields[j].0 == "Id"))
  }

  /** The last of distinct renameable response keys renames to a key that
      the earlier ones do not reach. */
  lemma LastKeyIsNew(fields: UserFields)
    requires |fields| > 0 && DistinctKeys(fields) && RenameableKeys(fields)
    ensures Rename(fields[|fields| - 1].0) !in UserHash(fields[..|fields| - 1])
  {
    var n := |fields| - 1;
    var key := Rename(fields[n].0);
    if key in UserHash(fields[..n]) {
      var i :| 0 <= i < n && Rename(fields[..n][i].0) == key;
      assert fields[..n][i] == fields[i];
      RenameCollision(fields[i].0, fields[n].0);
      assert false;
    }
  }

  /** For distinct PascalCase response keys the hash has exactly one key per
      response key. */
  lemma {:induction false} UserHashSize(fields: UserFields)
    requires DistinctKeys(fields) && RenameableKeys(fields)
    ensures |UserHash(fields)| == |fields|
    decreases |fields|
  {
    if fields != [] {
      var n := |fields| - 1;
      var earlier := fields[..n];
      assert forall i | 0 <= i < n :: earlier[i] == fields[i];
      UserHashSize(earlier);
      LastKeyIsNew(fields);
    }
  }

  /** What `getCurrentUser` returns: nothing when the library is missing,
      else the user's renamed fields; `request` records the field names the
      library was asked for. */
  datatype CurrentUser = NoUser | User(request: seq<string>, fields: map<string, JsValue>)

  /** `getCurrentUser(fieldNames)`: asks the library for the given field
      names, or for ID, Name, Title and EMail when none are given, and stores
      every returned value under its renamed key. */
  function GetCurrentUser(library: Option<Library>, fieldNames: Option<seq<string>>): (u: CurrentUser)
    ensures u.NoUser? <==> library.None?
    ensures u.User? && fieldNames.None? ==> u.request == ["ID", "Name", "Title", "EMail"]
    ensures u.User? && fieldNames.Some? ==> u.request == fieldNames.value
    ensures u.User? ==>
      var response := library.value.currentUser(u.request);
      && u.fields.Keys == (set i | 0 <= i < |response| :: Rename(response[i].0))
      && (forall i | 0 <= i < |response| && !OverwrittenLater(response, i) ::
            u.fields[Rename(response[i].0)] == response[i].1)
  {
    match library
    case None => NoUser
    case Some(lib) =>
      var request := match fieldNames case Some(names) => names case None => DefaultFieldNames;
      var response := lib.currentUser(request);
      UserHashValues(response);
      User(request, UserHash(response))
  }

  /** With no field names and the four default fields in the response, the
      user has exactly the keys id, name, title and eMail, holding the
      response's values. */
  lemma CurrentUserDefaults(library: Library, id: JsValue, name: JsValue, title: JsValue, email: JsValue)
    requires library.currentUser(DefaultFieldNames) == [("ID", id), ("Name", name), ("Title", title), ("EMail", email)]
    ensures GetCurrentUser(Some(library), None) ==
      User(DefaultFieldNames, map["id" := id, "name" := name, "title" := title, "eMail" := email])
  {
    RenameDefaults();
    var response := library.currentUser(DefaultFieldNames);
    assert response[..1][..0] == [];
    assert UserHash(response[..1]) == map["id" := id];
    assert response[..2][..1] == response[..1];
    assert UserHash(response[..2]) == map["id" := id, "name" := name];
    assert response[..3][..2] == response[..2];
    assert UserHash(response[..3]) == map["id" := id, "name" := name, "title" := title];
    assert response[..4] == response;
    assert UserHash(response) == UserHash(response[..3])["eMail" := email];
  }

  // ---------------------------------------------------------------------------
  // the completion of the two collection methods

  /** `out` is `sink` followed by one `build(e)` per found element, in order. */
  ghost predicate AppendedInOrder<T>(sink: seq<T>, found: seq<Element>, build: Element -> T, out: seq<T>)
  {
    && |out| == |sink| + |found|
    && out[..|sink|] == sink
    && (forall i | 0 <= i < |found| :: out[|sink| + i] == build(found[i]))
  }

  /** What `completefunc` must do with the completion `c`, where `body` is the
      response body it reads and `tag` the element it looks for. */
  ghost predicate Dispatched<T>(results: Results<T>, c: Completion, body: Option<Document>, tag: string,
                                build: Element -> T, effect: Effect<T>)
  {
    match results
    case Omitted => effect == NoEffect
    case Callback => effect == CalledBack(c.xData, c.status)
    case Collection(items) =>
      match body
      case None => effect == Appended(items)
      case Some(doc) => effect.Appended? && AppendedInOrder(items, Find(doc, tag), build, effect.items)
  }

  /** The shared body of both `completefunc`s: nothing when `results` is
      left out, the callback when it is a function, and otherwise one record
      pushed per `tag` element of the response body, in document order. */
  method Complete<T>(results: Results<T>, c: Completion, body: Option<Document>, tag: string,
                     build: Element -> T) returns (effect: Effect<T>)
    ensures Dispatched(results, c, body, tag, build, effect)
  {
    match results
    case Omitted =>
      effect := NoEffect;
    case Callback =>
      effect := CalledBack(c.xData, c.status);
    case Collection(items) =>
      match body
      case None =>
        effect := Appended(items);
      case Some(doc) =>
        var out := AppendEach(items, doc, tag, build);
        effect := Appended(out);
  }

  // ---------------------------------------------------------------------------
  // getGroupCollectionFromUser

  /** A group record: the properties a Group element's attributes are
      stored under. */
  type GroupRecord = map<string, JsValue>

  /** Record key to the attribute of a Group element it is read from. */
  const GroupFields: map<string, string> :=
    map["id" := "ID", "name" := "Name", "description" := "Description",
        "ownerId" := "OwnerID", "ownerIsUser" := "OwnerIsUser"]

  /** The keys of the fields table and the attribute each one names. */
  lemma GroupFieldsTable()
    ensures GroupFields.Keys == {"id", "name", "description", "ownerId", "ownerIsUser"}
    ensures GroupFields["id"] == "ID" && GroupFields["name"] == "Name"
    ensures GroupFields["description"] == "Description"
    ensures GroupFields["ownerId"] == "OwnerID" && GroupFields["ownerIsUser"] == "OwnerIsUser"
  {
  }

  /** The record for one Group element: exactly five keys, each holding the
      raw text of its attribute (undefined when the attribute is missing). */
  function GroupRecordOf(group: Element): (r: GroupRecord)
    ensures r.Keys == {"id", "name", "description", "ownerId", "ownerIsUser"}
    ensures r["id"] == Attr(group, "ID") && r["name"] == Attr(group, "Name")
    ensures r["description"] == Attr(group, "Description")
    ensures r["ownerId"] == Attr(group, "OwnerID") && r["ownerIsUser"] == Attr(group, "OwnerIsUser")
  {
    GroupFieldsTable();
    map key | key in GroupFields :: Attr(group, GroupFields[key])
  }

  /** `getGroupCollectionFromUser(userLoginName, results)`: a synchronous
      GetGroupCollectionFromUser call for the login name, whose completion
      maps each Group element of `responseXML` to a group record. There is
      no check for a missing library: calling it throws. */
  method GetGroupCollectionFromUser(library: Option<Library>, userLoginName: JsValue, results: Results<GroupRecord>)
    returns (o: Outcome<GroupRecord>)
    ensures o.ThrowsTypeError? <==> library.None?
    ensures !o.NotCalled?
    ensures o.Called? ==> o.request.operation == "GetGroupCollectionFromUser"
    ensures o.Called? ==> !o.request.async && o.request.params == map["userLoginName" := userLoginName]
    ensures o.Called? ==>
      var c := library.value.call(o.request);
      Dispatched(results, c, c.xData.responseXML, "Group", GroupRecordOf, o.effect)
  {
    match library
    case None =>
      o := ThrowsTypeError;
    case Some(lib) =>
      var request := SoapRequest("GetGroupCollectionFromUser", false, map["userLoginName" := userLoginName]);
      var c := lib.call(request);
      var effect := Complete(results, c, c.xData.responseXML, "Group", GroupRecordOf);
      o := Called(request, effect);
  }

  /** A Group element carrying all five attributes becomes the record
      holding exactly their text. */
  lemma GroupRecordOfComplete(group: Element, id: string, name: string, description: string,
                              ownerId: string, ownerIsUser: string)
    requires group.attributes == map["ID" := id, "Name" := name, "Description" := description,
                                     "OwnerID" := ownerId, "OwnerIsUser" := ownerIsUser]
    ensures GroupRecordOf(group) == map["id" := Str(id), "name" := Str(name), "description" := Str(description),
                                        "ownerId" := Str(ownerId), "ownerIsUser" := Str(ownerIsUser)]
  {
  }

  /** In a `Groups` element followed by two `Group` elements, find("Group")
      gives the two groups in order. */
  lemma GroupsFound(first: Element, second: Element)
    requires first.tag == "Group" && second.tag == "Group"
    ensures Find([Element("Groups", map[]), first, second], "Group") == [first, second]
  {
    var doc := [Element("Groups", map[]), first, second];
    assert doc[..1][..0] == [];
    assert Find(doc[..1], "Group") == [];
    assert doc[..2][..1] == doc[..1];
    assert Find(doc[..2], "Group") == [first];
    assert doc[..2] == doc[..|doc| - 1];
  }

  /** The service's own example response: its two Group elements are found
      in order and become two records holding all five attributes as text,
      appended to an empty array in that order. */
  lemma GroupExample()
    ensures var admins := Element("Group", map["ID" := "1", "Name" := "Administrators",
              "Description" := "Admin Group", "OwnerID" := "2", "OwnerIsUser" := "False"]);
      var support := Element("Group", map["ID" := "3", "Name" := "IT Support Staff",
              "Description" := "Group for IT Support staff", "OwnerID" := "4", "OwnerIsUser" := "True"]);
      var adminsRecord := map["id" := Str("1"), "name" := Str("Administrators"), "description" := Str("Admin Group"),
              "ownerId" := Str("2"), "ownerIsUser" := Str("False")];
      var supportRecord := map["id" := Str("3"), "name" := Str("IT Support Staff"),
              "description" := Str("Group for IT Support staff"), "ownerId" := Str("4"), "ownerIsUser" := Str("True")];
      && Find([Element("Groups", map[]), admins, support], "Group") == [admins, support]
      && GroupRecordOf(admins) == adminsRecord
      && GroupRecordOf(support) == supportRecord
      && AppendedInOrder([], [admins, support], GroupRecordOf, [adminsRecord, supportRecord])
  {
    var admins := Element("Group", map["ID" := "1", "Name" := "Administrators",
              "Description" := "Admin Group", "OwnerID" := "2", "OwnerIsUser" := "False"]);
    var support := Element("Group", map["ID" := "3", "Name" := "IT Support Staff",
              "Description" := "Group for IT Support staff", "OwnerID" := "4", "OwnerIsUser" := "True"]);
    GroupsFound(admins, support);
    GroupRecordOfComplete(admins, "1", "Administrators", "Admin Group", "2", "False");
    GroupRecordOfComplete(support, "3", "IT Support Staff", "Group for IT Support staff", "4", "True");
  }

  // ---------------------------------------------------------------------------
  // getVersionCollection

  /** The FieldVersion for one Version element: the requested field's
      attribute as `value`, with the `Modified` and `Editor` attributes. */
  function VersionRecord(version: Element, fieldName: string): (v: FieldVersion)
    ensures v.value == Attr(version, fieldName)
    ensures v.modified == Attr(version, "Modified") && v.editor == Attr(version, "Editor")
  {
    Create(map["value" := Attr(version, fieldName), "modified" := Attr(version, "Modified"),
               "editor" := Attr(version, "Editor")])
  }

  /** `getVersionCollection(listId, itemId, fieldName, results)`: returns at
      once unless the library, list id, item id and field name are all
      truthy; otherwise an asynchronous GetVersionCollection call whose
      completion maps each Version element of `responseText` to a
      FieldVersion. */
  method GetVersionCollection(library: Option<Library>, listId: JsValue, itemId: JsValue,
                              fieldName: Option<string>, results: Results<FieldVersion>)
    returns (o: Outcome<FieldVersion>)
    ensures o.NotCalled? <==>
      library.None? || !Truthy(listId) || !Truthy(itemId) || fieldName.None? || fieldName.value == []
    ensures !o.ThrowsTypeError?
    ensures o.Called? ==> o.request.operation == "GetVersionCollection" && o.request.async
    ensures o.Called? ==>
      o.request.params == map["strlistID" := listId, "strlistItemID" := itemId, "strFieldName" := Str(fieldName.value)]
    ensures o.Called? ==>
      var c := library.value.call(o.request);
      Dispatched(results, c, c.xData.responseText, "Version",
                 (e: Element) => VersionRecord(e, fieldName.value), o.effect)
  {
    if library.None? || !Truthy(listId) || !Truthy(itemId) || fieldName.None? || fieldName.value == [] {
      return NotCalled;
    }
    var name := fieldName.value;
    var request := SoapRequest("GetVersionCollection", true,
      map["strlistID" := listId, "strlistItemID" := itemId, "strFieldName" := Str(name)]);
    var c := library.value.call(request);
    var effect := Complete(results, c, c.xData.responseText, "Version", (e: Element) => VersionRecord(e, name));
    o := Called(request, effect);
  }
}
