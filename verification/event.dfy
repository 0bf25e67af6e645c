/**
 The `Event` entity of the demo: a title, a timestamp, an identifier the
 persistence layer assigns, and an ordered log of remarks. Equality and
 hashing look at `id`, `title` and `date` only; the log is deliberately
 left out of both.

 The entity is a value here: every mutator returns the updated event.
 */
module Events {
  import opened JavaLang

  /** An `Event` instance. Every field is a Java reference and may be null,
      the log included (`setLog(null)` stores null). */
  datatype Event = Event(
    id: JString,
    title: JString,
    date: Option<Date>,
    log: Option<JList>)

  /** The argument of `equals(Object)`: null, an object whose runtime class
      is exactly `Event`, or an object of any other class (a subclass of
      `Event` included, since the runtime classes are compared). */
  datatype Obj = Null | EventRef(event: Event) | OtherClass

  /** The platform hash functions `hashCode` calls on its fields. Both are
      deterministic functions of the referenced value. */
  datatype Hashing = Hashing(ofString: string -> int32, ofDate: Date -> int32)

  /** The part of an event that takes part in equality and hashing. */
  function Key(e: Event): (JString, JString, Option<Date>)
  {
    (e.id, e.title, e.date)
  }

  /** `new Event(title, date)`: no identifier yet and an empty `ArrayList`
      as the log. */
  function NewEvent(title: JString, date: Option<Date>): (r: Event)
    ensures r.id == None
    ensures r.title == title && r.date == date
    ensures r.log == Some(JList([], true))
  {
    Event(None, title, date, Some(JList([], true)))
  }

  /** `setDate`: replaces the date and nothing else. */
  function SetDate(e: Event, date: Option<Date>): (r: Event)
    ensures r.date == date
    ensures r.id == e.id && r.title == e.title && r.log == e.log
  {
    e.(date := date)
  }

  /** `setTitle`: replaces the title and nothing else. */
  function SetTitle(e: Event, title: JString): (r: Event)
    ensures r.title == title
    ensures r.id == e.id && r.date == e.date && r.log == e.log
  {
    e.(title := title)
  }

  /** `setLog`: replaces the whole log (possibly by null, possibly by a list
      that rejects `add`) and nothing else. */
  function SetLog(e: Event, log: Option<JList>): (r: Event)
    ensures r.log == log
    ensures Key(r) == Key(e)
  {
    e.(log := log)
  }

  /** `addLogEntry`: appends one entry (null allowed, as `ArrayList.add`
      accepts it) at the end of the log. A null log throws
      `NullPointerException`; a log list that rejects `add` throws
      `UnsupportedOperationException`. */
  function AddLogEntry(e: Event, entry: JString): (r: Result<Event>)
    ensures r.Ok? <==> e.log.Some? && e.log.value.supportsAdd
    ensures e.log.None? ==> r == Err(NullPointerException)
    ensures e.log.Some? && !e.log.value.supportsAdd ==>
              r == Err(UnsupportedOperationException)
    ensures r.Ok? ==> r.value.log == Some(JList(e.log.value.elements + [entry], true))
    ensures r.Ok? ==> Key(r.value) == Key(e)
  {
    match e.log
    case None => Err(NullPointerException)
    case Some(list) =>
      if !list.supportsAdd then Err(UnsupportedOperationException)
      else Ok(e.(log := Some(list.(elements := list.elements + [entry]))))
  }

  /** Calls `addLogEntry` once per entry, in order, stopping at the first
      exception. */
  function AddLogEntries(e: Event, entries: seq<JString>): (r: Result<Event>)
    decreases |entries|
  {
    if |entries| == 0 then Ok(e)
    else
      match AddLogEntry(e, entries[0])
      case Err(x) => Err(x)
      case Ok(next) => AddLogEntries(next, entries[1..])
  }

  /** The null-safe field comparison `a != null ? a.equals(b) : b == null`,
      for a field type whose `equals` compares values. */
  function NullSafeEquals<T(==)>(a: Option<T>, b: Option<T>): (r: bool)
    ensures r <==> a == b
    ensures a.None? ==> (r <==> b.None?)
  {
    match a
    case Some(x) => b.Some? && x == b.value
    case None => b.None?
  }

  /** `equals(Object)`: false for null and for any other runtime class;
      otherwise a null-safe comparison of `date`, `id` and `title`, in that
      order. The identity short-circuit `this == o` is subsumed: an event's
      fields always equal its own. */
  function Equals(e: Event, o: Obj): (r: bool)
    ensures o.Null? || o.OtherClass? ==> !r
    ensures o == EventRef(e) ==> r
    ensures o.EventRef? ==> (r <==> Key(e) == Key(o.event))
  {
    match o
    case Null => false
    case OtherClass => false
    case EventRef(other) =>
      if !NullSafeEquals(e.date, other.date) then false
      else if !NullSafeEquals(e.id, other.id) then false
      else if !NullSafeEquals(e.title, other.title) then false
      else true
  }

  /** The hash of a nullable String field: 0 for null. */
  function StringFieldHash(h: Hashing, s: JString): int32
  {
    match s
    case None => 0
    case Some(v) => h.ofString(v)
  }

  /** The hash of a nullable Date field: 0 for null. */
  function DateFieldHash(h: Hashing, d: Option<Date>): int32
  {
    match d
    case None => 0
    case Some(v) => h.ofDate(v)
  }

  /** `hashCode()`: the base-31 polynomial over `id`, `title` and `date`,
      accumulated step by step in wrapping `int` arithmetic. Its value is
      the exact polynomial reduced once to 32 bits. */
  function HashCode(e: Event, h: Hashing): (r: int32)
    ensures r == Wrap(31 * 31 * StringFieldHash(h, e.id)
                      + 31 * StringFieldHash(h, e.title)
                      + DateFieldHash(h, e.date))
  {
    var idHash := StringFieldHash(h, e.id);
    var titleHash := StringFieldHash(h, e.title);
    var dateHash := DateFieldHash(h, e.date);
    var afterId: int32 := idHash;
    var afterTitle := Add32(Mul32(31, afterId), titleHash);
    var afterDate := Add32(Mul32(31, afterTitle), dateHash);
    HashPolynomial(idHash, titleHash, dateHash);
    afterDate
  }

  /** Two wrapping steps of `31 * result + h` equal the degree-two
      polynomial wrapped once. */
  lemma HashPolynomial(a: int32, b: int32, c: int32)
    ensures Add32(Mul32(31, Add32(Mul32(31, a), b)), c)
         == Wrap(31 * 31 * a + 31 * b + c)
  {
    var inner := Add32(Mul32(31, a), b);
    WrapLinear(31, a, b);
    assert inner == Wrap(31 * a + b);
    WrapLinear(31, 31 * a + b, c);
    assert Add32(Mul32(31, Wrap(31 * a + b)), c) == Wrap(31 * (31 * a + b) + c);
    assert 31 * (31 * a + b) + c == 31 * 31 * a + 31 * b + c;
  }
}
