/**
  FieldVersionObject: one historical value of a list item's field, with the
  time it was modified and the descriptor of the user who edited it, plus the
  two properties derived from them, `_modified` (epoch milliseconds) and
  `_editorId` (the editor's numeric id, as text).
*/
module FieldVersionObject {
  import opened Js
  import opened Strings
  import opened Timestamp

  /** The three stored properties. `editor` is normally a descriptor such as
      `11;#Test User,#DOMAIN\testuser,#test.user@example.com,#,#Test User`. */
  datatype FieldVersion = FieldVersion(value: JsValue, modified: JsValue, editor: JsValue)

  /** The names of the stored properties. */
  const Properties: set<string> := {"value", "modified", "editor"}

  /** Reads a property by name; a name the object does not define reads as
      undefined. */
  function Get(v: FieldVersion, name: string): JsValue
  {
    if name == "value" then v.value
    else if name == "modified" then v.modified
    else if name == "editor" then v.editor
    else Undefined
  }

  /** A property's initial value: the one passed to `create`, else the
      class default null. */
  function Initial(props: map<string, JsValue>, name: string): JsValue
  {
    if name in props then props[name] else Null
  }

  /** `FieldVersionObject.create(props)`: every stored property takes the
      value passed for it, even undefined, and is null when none is passed. */
  function Create(props: map<string, JsValue>): (v: FieldVersion)
    ensures forall name | name in Properties :: Get(v, name) == if name in props then props[name] else Null
  {
    FieldVersion(Initial(props, "value"), Initial(props, "modified"), Initial(props, "editor"))
  }

  /** Creating from an object's own stored properties rebuilds that object:
      `create` takes every stored property from what it is passed and keeps
      nothing else. */
  lemma CreateOfOwnProperties(v: FieldVersion)
    ensures Create(map name | name in Properties :: Get(v, name)) == v
  {
  }

  /** The separator between the fields of an editor descriptor. */
  const EditorSeparator: string := ";#"

  /** What `_editorId` yields: undefined, a piece of the descriptor, or the
      TypeError thrown when a truthy editor is not a string and so has no
      `split` method. */
  datatype EditorIdValue = NoEditorId | EditorIdText(text: string) | NotSplittable

  /** `_editorId`: the editor descriptor up to its first `;#`, or undefined
      when there is no editor. */
  function EditorId(editor: JsValue): (r: EditorIdValue)
    ensures r.NoEditorId? <==> !Truthy(editor)
    ensures r.NotSplittable? <==> Truthy(editor) && !editor.Str?
    ensures r.EditorIdText? ==> editor.Str? && PrefixBeforeFirst(r.text, editor.s, EditorSeparator)
  {
    if !Truthy(editor) then NoEditorId
    else
      match editor
      case Str(s) =>
        var pieces := Split(s, EditorSeparator);
        SplitFirstPiece(s, EditorSeparator);
        if |pieces| > 0 then EditorIdText(pieces[0]) else NoEditorId
      case _ => NotSplittable
  }

  /** For any non-empty descriptor the id is defined, holds no `;#`, is the
      whole descriptor when there is no `;#`, and is empty when the
      descriptor starts with `;#`. */
  lemma EditorIdOfText(s: string)
    requires s != []
    ensures EditorId(Str(s)).EditorIdText?
    ensures var id := EditorId(Str(s)).text;
      && s[..|id|] == id
      && (forall i :: !OccursAt(id, EditorSeparator, i))
      && ((forall i :: !OccursAt(s, EditorSeparator, i)) ==> id == s)
      && (OccursAt(s, EditorSeparator, 0) ==> id == [])
  {
    var id := EditorId(Str(s)).text;
    PrefixBeforeFirstHasNoSeparator(id, s, EditorSeparator);
  }

  /** A descriptor that begins with the id 11 yields "11", whatever follows:
      so the documented `11;#Test User,#DOMAIN\testuser,...` gives "11". */
  lemma EditorIdOfDescriptor(rest: string)
    ensures EditorId(Str("11;#" + rest)) == EditorIdText("11")
  {
    var s := "11;#" + rest;
    assert s[0] == '1' && s[1] == '1' && s[2] == ';' && s[3] == '#';
    assert s[0..2][0] == '1' && s[1..3][0] == '1';
    assert !OccursAt(s, EditorSeparator, 0) && !OccursAt(s, EditorSeparator, 1);
    assert s[2..4] == EditorSeparator;
    assert PrefixBeforeFirst("11", s, EditorSeparator);
    PrefixBeforeFirstUnique("11", EditorId(Str(s)).text, s, EditorSeparator);
  }

  /** What `new Date(modified).getTime()` yields: a time value, NaN, or a
      result this model does not determine (text other than the Z form). */
  datatype Time = Millis(ms: int) | NaN | Unmodelled

  /** The largest magnitude of a JavaScript time value (TimeClip). */
  const MaxTimeValue: int := 8_640_000_000_000_000

  /** `_modified`: `new Date(modified).getTime()`. Null and booleans convert
      to numbers, numbers are clipped to the time-value range, and text in
      the `YYYY-MM-DDTHH:MM:SSZ` form is read as a UTC instant. */
  function ModifiedMillis(modified: JsValue): (t: Time)
    ensures t.NaN? <==> modified.Undefined? || (modified.Num? && !(-MaxTimeValue <= modified.n <= MaxTimeValue))
    ensures t.Unmodelled? ==> modified.Str?
    ensures t.Millis? ==> -MaxTimeValue <= t.ms <= MaxTimeValue
  {
    match modified
    case Undefined => NaN
    case Null => Millis(0)
    case Bool(b) => Millis(if b then 1 else 0)
    case Num(n) => if -MaxTimeValue <= n <= MaxTimeValue then Millis(n) else NaN
    case Str(s) =>
      match Parse(s)
      case Some(t) =>
        EpochMillisInRange(t);
        Millis(EpochMillis(t))
      case None => Unmodelled
  }

  lemma EpochMillisInRange(t: DateTime)
    requires Valid(t)
    ensures -MaxTimeValue <= EpochMillis(t) <= MaxTimeValue
  {
    var days := DaysFromCivil(t.year, t.month, t.day);
    assert -800000 <= days <= 3000000;
    var secs := ((days * 24 + t.hour) * 60 + t.minute) * 60 + t.second;
    assert -800000 * 86400 <= secs <= 3000001 * 86400;
  }

  /** A timestamp in its canonical Z form gives its epoch milliseconds. */
  lemma ModifiedOfTimestamp(t: DateTime)
    requires Valid(t)
    ensures ModifiedMillis(Str(Format(t))) == Millis(EpochMillis(t))
  {
    ParseFormat(t);
  }

  /** The documented example: 2015-11-13T10:20:02Z is 1447410002000 ms
      after the epoch (day 16752, plus 37202 seconds). */
  lemma ModifiedExample()
    ensures ModifiedMillis(Str("2015-11-13T10:20:02Z")) == Millis(1447410002000)
  {
    var t := DateTime(2015, 11, 13, 10, 20, 2);
    assert Format(t) == "2015-11-13T10:20:02Z";
    assert DaysFromCivil(2015, 11, 13) == 16752;
    ModifiedOfTimestamp(t);
  }

  /** A FieldVersion created with no properties holds null in all three, has
      no editor id and a `_modified` of 0 (`new Date(null)` is the epoch). */
  lemma CreateWithoutProperties()
    ensures Create(map[]) == FieldVersion(Null, Null, Null)
    ensures EditorId(Create(map[]).editor) == NoEditorId
    ensures ModifiedMillis(Create(map[]).modified) == Millis(0)
  {
  }
}
