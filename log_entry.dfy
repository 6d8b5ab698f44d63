/**
 * The shapes of the JSON records the engine reads, reduced to what its
 * property tests look at. Parsing itself is a parameter of every operation
 * that reads a log: it maps a line to the record, or to `None` when
 * `JSON.parse` throws or yields something whose field access throws (`null`).
 */
module LogEntry {
  import opened Wrappers

  /** A JSON value as far as truthiness, `typeof … === 'string'` and `Array.isArray` can tell it apart. */
  datatype Value =
    | Absent                       // `undefined` or `null`
    | Str(s: string)
    | Items(items: seq<Item>)      // an array
    | Other(truthy: bool)          // a number, boolean or object

  /** An element of a `content` array; `NullItem` is `null` or `undefined`, reading a field of which throws. */
  datatype Item =
    | NullItem
    | Part(typeIsText: bool, text: Value, content: Value)

  /** One line of the global prompt history. */
  datatype HistoryEntry = HistoryEntry(
    /** `tx`: the epoch milliseconds of `timestamp`, 0 when it is missing, of another type, or not a valid date */
    timestamp: int,
    /** `display` when it is a string */
    display: Option<string>,
    /** `type === 'user_message' || role === 'user'` */
    userTagged: bool,
    content: Value,
    /** `message.content` when `message` is truthy and that field is a string */
    messageContent: Option<string>)

  /** One line of a project conversation log: only `message.content` is read. */
  datatype ProjectEntry = ProjectEntry(
    /** `entry.message.content`, `Absent` when `message` is missing */
    messageContent: Value)

  /** JavaScript truthiness. */
  predicate Truthy(v: Value) {
    match v
    case Absent => false
    case Str(s) => s != []
    case Items(_) => true
    case Other(t) => t
  }

  /** `a || b` */
  function Or(a: Value, b: Value): (r: Value)
    ensures Truthy(r) <==> Truthy(a) || Truthy(b)
    ensures Truthy(a) ==> r == a
  {
    if Truthy(a) then a else b
  }
}
