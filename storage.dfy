/** The browser storage slot under the key "todo_tasks", and the decision
    App's mount effect makes on what it finds there. JSON text is not
    modelled character by character: a stored string is either the
    serialisation of some JSON value or text that JSON.parse rejects. */
module Storage {
  import opened Tasks

  datatype Option<T> = None | Some(value: T)

  /** A JSON value as far as loading tells values apart: an array (whose
      elements are taken to be tasks, as the source takes them without
      checking their shape) or any other value (an object, a number, a
      string, true, false or null). */
  datatype Json = JsonArray(items: seq<Task>) | JsonOther

  /** A string held in the slot: the text JSON.stringify produces for a
      value, or text that is not JSON at all (the empty string among
      them). */
  datatype Raw = Serialized(value: Json) | NotJson(text: string)

  /** The outcome of JSON.parse: a value, or the exception it throws. */
  datatype Parsed = Value(value: Json) | SyntaxError

  /** JSON.stringify(tasks). */
  function Stringify(tasks: seq<Task>): Raw {
    Serialized(JsonArray(tasks))
  }

  /** JSON.parse: the serialisation of a value parses back to it; text
      that is not JSON throws. */
  function Parse(raw: Raw): (p: Parsed)
    ensures p.SyntaxError? <==> raw.NotJson?
    ensures forall tasks :: raw == Stringify(tasks) ==> p == Value(JsonArray(tasks))
  {
    match raw
    case Serialized(v) => Value(v)
    case NotJson(_) => SyntaxError
  }

  /** JavaScript truthiness of the string getItem returned: every string
      but the empty one. A serialisation is never empty. */
  predicate Truthy(raw: Raw) {
    raw != NotJson("")
  }

  /** The slot holds the serialisation of an array. */
  predicate HoldsArray(slot: Option<Raw>) {
    slot.Some? && slot.value.Serialized? && slot.value.value.JsonArray?
  }

  /** The list the mount effect loads from the slot. It never fails: an
      absent key, an empty string, text JSON.parse rejects and a parsed
      value that is not an array all give the empty list; an array is
      taken as the list, so that saving it again writes back exactly
      what was stored. */
  function LoadedTasks(slot: Option<Raw>): (r: seq<Task>)
    ensures HoldsArray(slot) ==> slot == Some(Stringify(r))
    ensures !HoldsArray(slot) ==> r == []
  {
    match slot
    case None => []
    case Some(raw) =>
      if !Truthy(raw) then []
      else
        match Parse(raw)
        case SyntaxError => []
        case Value(JsonArray(items)) => items
        case Value(JsonOther) => []
  }

  /** Saving a list and loading it again gives back the same list, the
      same tasks in the same order. */
  lemma LoadAfterSave(tasks: seq<Task>)
    ensures LoadedTasks(Some(Stringify(tasks))) == tasks
  {
    assert HoldsArray(Some(Stringify(tasks)));
  }
}
