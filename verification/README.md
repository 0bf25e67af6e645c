# Event entity of the OGM demo, in Dafny

The demo persists, indexes, queries and deletes instances of one entity,
`Event`. Persistence, indexing, search and caching are all done by external
libraries. The only logic the repository writes itself is the value
behaviour of `Event`:

- the two-argument constructor;
- the setters and `addLogEntry`;
- `equals`, a null-safe comparison of `id`, `date` and `title`;
- `hashCode`, the base-31 polynomial over the same three fields in 32-bit
  `int` arithmetic.

Both `equals` and `hashCode` deliberately ignore the event's log.

The model has three modules:

- `JavaLang` (`java_lang.dfy`) holds the Java pieces the entity uses:
  - nullable references as `Option`, where `None` is `null`;
  - `NullPointerException` and `UnsupportedOperationException` as `Result`
    errors;
  - a `List<String>` as its elements plus whether its `add` appends;
  - a plain `java.util.Date` as the millisecond instant its `equals` compares;
  - Java `int` as the subset type `int32`, with two's-complement wrapping
    `Mul32`/`Add32`.
- `Events` (`event.dfy`) holds the entity as an immutable record and each of
  its operations as a pure function that returns the updated event.
- `EventLaws` (`event_laws.dfy`) holds the properties that relate several
  calls:
  - `equals` is symmetric and transitive and ignores the log, for dates
    that are plain `java.util.Date` values;
  - `hashCode` agrees with `equals`;
  - repeated `addLogEntry` calls append their entries in order.

`String.hashCode` and `Date.hashCode` are passed to `HashCode` as a `Hashing`
record of two arbitrary total functions. Every hash property is therefore
proved for every String and Date hash function.

## Model

| member | source | states |
|---|---|---|
| Events.NewEvent | src/main/java/org/hibernate/jpa/demo/Event.java:47-61 | a new event has a null id, the given title and date, and an empty log list that accepts `add` |
| Events.SetDate | src/main/java/org/hibernate/jpa/demo/Event.java:80-82 | the date becomes the argument; id, title and log are unchanged |
| Events.SetTitle | src/main/java/org/hibernate/jpa/demo/Event.java:89-91 | the title becomes the argument; id, date and log are unchanged |
| Events.SetLog | src/main/java/org/hibernate/jpa/demo/Event.java:146-148 | the log becomes the argument, null or a list that rejects `add` included; id, title and date are unchanged |
| Events.AddLogEntry | src/main/java/org/hibernate/jpa/demo/Event.java:98-100 | succeeds exactly when the log is non-null and its list accepts `add`, and then the log holds the old entries plus the one entry at the end, with id, title and date unchanged; a null log throws NullPointerException and a list that rejects `add` throws UnsupportedOperationException |
| Events.NullSafeEquals | src/main/java/org/hibernate/jpa/demo/Event.java:113-121 | the null-safe field comparison holds exactly when both references are null or both hold equal values; null never equals a non-null value |
| Events.Equals | src/main/java/org/hibernate/jpa/demo/Event.java:103-124 | false for null and for objects of another runtime class; true for the event itself; for another event, true exactly when id, title and date are all equal (the log plays no part) |
| Events.HashCode | src/main/java/org/hibernate/jpa/demo/Event.java:127-132 | the step-by-step wrapping computation equals `31*31*h(id) + 31*h(title) + h(date)` reduced once to a 32-bit int, with `h(null) = 0` |
| Events.HashPolynomial | src/main/java/org/hibernate/jpa/demo/Event.java:128-130 | two wrapping `result = 31 * result + h` steps give the degree-two polynomial wrapped once |
| JavaLang.WrapLinear | src/main/java/org/hibernate/jpa/demo/Event.java:129-130 | a `31 * result + h` step in wrapping int arithmetic equals the exact step wrapped once, whatever wrap-around happened before it |
| JavaLang.Wrap | src/main/java/org/hibernate/jpa/demo/Event.java:128-131 | narrowing to a Java int leaves a value that already fits unchanged |
| JavaLang.WrapCongruent | src/main/java/org/hibernate/jpa/demo/Event.java:128-131 | narrowing to a Java int keeps the value modulo 2^32 (the low-order 32 bits) |
| JavaLang.WrapUnique | src/main/java/org/hibernate/jpa/demo/Event.java:128-131 | the narrowed value is the only Java int congruent to the argument modulo 2^32, so narrowing is two's complement truncation |
| JavaLang.Mul32 | src/main/java/org/hibernate/jpa/demo/Event.java:129-130 | int multiplication returns the exact product when it fits in 32 bits |
| JavaLang.Mul32Wraps | src/main/java/org/hibernate/jpa/demo/Event.java:129-130 | an int product that overflows keeps the low-order 32 bits of the exact product |
| JavaLang.Add32 | src/main/java/org/hibernate/jpa/demo/Event.java:129-130 | int addition returns the exact sum when it fits in 32 bits |
| JavaLang.Add32Wraps | src/main/java/org/hibernate/jpa/demo/Event.java:129-130 | an int sum that overflows keeps the low-order 32 bits of the exact sum |
| JavaLang.WrapShift | src/main/java/org/hibernate/jpa/demo/Event.java:129-130 | wrapping to 32 bits ignores whole multiples of 2^32 |
| EventLaws.EqualsSymmetric | src/main/java/org/hibernate/jpa/demo/Event.java:111-123 | `a.equals(b)` exactly when `b.equals(a)` |
| EventLaws.EqualsTransitive | src/main/java/org/hibernate/jpa/demo/Event.java:111-123 | `a.equals(b)` and `b.equals(c)` give `a.equals(c)` |
| EventLaws.EqualsIgnoresLog | src/main/java/org/hibernate/jpa/demo/Event.java:111-131 | events that differ only in their logs are equal and have the same hash code |
| EventLaws.LogUpdatesKeepEquality | src/main/java/org/hibernate/jpa/demo/Event.java:98-131 | `setLog` and a successful `addLogEntry` change neither the result of `equals` against any object, with the updated event as receiver or as argument, nor the hash code |
| EventLaws.KeySettersDecideEquality | src/main/java/org/hibernate/jpa/demo/Event.java:80-91 | after `setTitle` or `setDate`, the event equals its former self exactly when the new value equals the old one |
| EventLaws.HashConsistentWithEquals | src/main/java/org/hibernate/jpa/demo/Event.java:103-132 | equal events have equal hash codes, for every String and Date hash function |
| EventLaws.NullFieldsHashToZero | src/main/java/org/hibernate/jpa/demo/Event.java:128-130 | an event whose key fields are all null hashes to 0; an event with a null id hashes to `31 * h(title) + h(date)` in int arithmetic |
| EventLaws.AddLogEntriesAppends | src/main/java/org/hibernate/jpa/demo/Event.java:98-100 | successive `addLogEntry` calls on a log that accepts `add` leave the old entries followed by the new ones in call order; with something to add, a null log throws NullPointerException and a log that rejects `add` throws UnsupportedOperationException |
| EventLaws.NewEventLogsInOrder | src/main/java/org/hibernate/jpa/demo/Event.java:51-61 | a new event followed by `addLogEntry` calls has no id, keeps its title and date, and its log holds exactly those entries in order |

## Left out

- The no-argument constructor (Event.java:53-55) is left out. Only the persistence framework calls it.
- `setId` and UUID generation (Event.java:63-72) are left out. The external mapping layer assigns the id. The model treats `id` as a field that starts out null and that the application never sets.
- `toString` (Event.java:134-144) is left out. Its output depends on the platform's `Date.toString` and `List.toString` formatting.
- The getters are left out. They return a field unchanged, which is a field access on the record.
- The persistence, indexing and column annotations are left out. The mapping and search libraries interpret them.
- The log has value semantics. The list that `getLog` returns and the list that `setLog` stores are shared mutable references in Java. The model does not cover changes made through such an alias. A list's other restrictions are not modelled either. The model records only whether the list's `add` appends or throws `UnsupportedOperationException`.
- JavaLang.Mul32: its own contract states only the case where the product fits. `JavaLang.Mul32Wraps` states the overflow rule, that the low-order 32 bits are kept. The rule is kept out of `Mul32`'s contract because it makes the hash proofs costlier.
- JavaLang.Add32: its own contract states only the case where the sum fits. `JavaLang.Add32Wraps` states the overflow rule, for the same reason.
- Dates have value semantics. A `java.util.Date` changed through `setTime` after it is stored is not modelled.
- EventLaws.EqualsSymmetric: holds only for dates that are plain `java.util.Date` values, which is the only kind of date the model has. `setDate` accepts any `Date` subclass, and the TIMESTAMP column mapping can load a `java.sql.Timestamp`. `Date.equals` accepts a `Timestamp` at the same instant, but `Timestamp.equals` rejects a plain `Date`, so two such events are equal in one direction only. Transitivity and hash consistency are not affected, because `Timestamp.hashCode` is the `Date` hash of the same instant.
- The identity test `this == o` in `equals` has no separate branch. Equality is a comparison of values here, and an event's fields always equal its own. The model therefore returns the same result as that branch.
- `String.hashCode` and `Date.hashCode` are arbitrary functions of their argument's value. Their concrete formulas are not modelled.
- The test class `InsertAndQueryTest.java` is left out. It configures and drives the external transaction manager, entity manager, full-text query builder and cache manager. This includes the process exit when cache setup fails.
