/**
 The contracts `Event` keeps across calls: for dates that are plain
 `java.util.Date` values, `equals` is an equivalence that ignores the log;
 `hashCode` agrees with it; and the log grows one entry per `addLogEntry`,
 in call order.
 */
module EventLaws {
  import opened JavaLang
  import opened Events

  /** `equals` is symmetric, for dates that are plain `java.util.Date`
      values (the only dates this model has). */
  lemma EqualsSymmetric(a: Event, b: Event)
    ensures Equals(a, EventRef(b)) <==> Equals(b, EventRef(a))
  {
  }

  /** `equals` is transitive. */
  lemma EqualsTransitive(a: Event, b: Event, c: Event)
    requires Equals(a, EventRef(b)) && Equals(b, EventRef(c))
    ensures Equals(a, EventRef(c))
  {
  }

  /** Two events that differ only in their logs are equal and hash alike. */
  lemma EqualsIgnoresLog(a: Event, b: Event, h: Hashing)
    requires Key(a) == Key(b)
    ensures Equals(a, EventRef(b))
    ensures HashCode(a, h) == HashCode(b, h)
  {
  }

  /** Replacing or extending the log never changes whether an event equals
      another one, in either direction, nor its hash code. */
  lemma LogUpdatesKeepEquality(a: Event, b: Event, other: Obj, log: Option<JList>,
                               entry: JString, h: Hashing)
    ensures Equals(SetLog(a, log), other) <==> Equals(a, other)
    ensures Equals(b, EventRef(SetLog(a, log))) <==> Equals(b, EventRef(a))
    ensures HashCode(SetLog(a, log), h) == HashCode(a, h)
    ensures AddLogEntry(a, entry).Ok? ==>
              (Equals(AddLogEntry(a, entry).value, other) <==> Equals(a, other))
    ensures AddLogEntry(a, entry).Ok? ==>
              (Equals(b, EventRef(AddLogEntry(a, entry).value)) <==> Equals(b, EventRef(a)))
    ensures AddLogEntry(a, entry).Ok? ==>
              HashCode(AddLogEntry(a, entry).value, h) == HashCode(a, h)
  {
  }

  /** A setter of a key field yields an event equal to the original exactly
      when the new value is the old one. */
  lemma KeySettersDecideEquality(e: Event, title: JString, date: Option<Date>)
    ensures Equals(SetTitle(e, title), EventRef(e)) <==> title == e.title
    ensures Equals(SetDate(e, date), EventRef(e)) <==> date == e.date
  {
  }

  /** Java's `equals`/`hashCode` contract: equal events have equal hash
      codes, whatever the platform's String and Date hashes are. */
  lemma HashConsistentWithEquals(a: Event, b: Event, h: Hashing)
    requires Equals(a, EventRef(b))
    ensures HashCode(a, h) == HashCode(b, h)
  {
  }

  /** A null key field contributes 0 to the hash: an event with every key
      field null hashes to 0, and a transient event (no id yet) hashes as
      `31 * hash(title) + hash(date)`. */
  lemma NullFieldsHashToZero(e: Event, h: Hashing)
    ensures Key(e) == (None, None, None) ==> HashCode(e, h) == 0
    ensures e.id.None? ==>
              HashCode(e, h) == Add32(Mul32(31, StringFieldHash(h, e.title)),
                                      DateFieldHash(h, e.date))
  {
  }

  /** Successive `addLogEntry` calls append their entries in call order to
      a log that accepts `add`; with something to add, a null log throws
      `NullPointerException` and a log that rejects `add` throws
      `UnsupportedOperationException`. */
  lemma {:induction false} AddLogEntriesAppends(e: Event, entries: seq<JString>)
    ensures e.log.Some? && e.log.value.supportsAdd ==>
              AddLogEntries(e, entries)
              == Ok(e.(log := Some(JList(e.log.value.elements + entries, true))))
    ensures e.log.None? && |entries| > 0 ==>
              AddLogEntries(e, entries) == Err(NullPointerException)
    ensures e.log.Some? && !e.log.value.supportsAdd && |entries| > 0 ==>
              AddLogEntries(e, entries) == Err(UnsupportedOperationException)
    decreases |entries|
  {
    if e.log.Some? && e.log.value.supportsAdd {
      var before := e.log.value.elements;
      if |entries| > 0 {
        var next := e.(log := Some(JList(before + [entries[0]], true)));
        AddLogEntriesAppends(next, entries[1..]);
        assert before + [entries[0]] + entries[1..] == before + entries;
      } else {
        assert before + entries == before;
      }
    }
  }

  /** A freshly constructed event that then receives log entries is still
      transient, keeps its title and date, and its `ArrayList` log holds
      exactly those entries in order. */
  lemma NewEventLogsInOrder(title: JString, date: Option<Date>, entries: seq<JString>)
    ensures AddLogEntries(NewEvent(title, date), entries)
         == Ok(Event(None, title, date, Some(JList(entries, true))))
  {
    AddLogEntriesAppends(NewEvent(title, date), entries);
    assert [] + entries == entries;
  }
}
