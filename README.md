# GSQL executor and descriptor registry, modelled in Dafny

This project models the core of an SQL toolkit for Groovy/Java servers. It has
two parts.

**The executor (`GSQL`)** is an extension of `groovy.sql.Sql`. It does three things:
- **Parameter binding.** The executor consults a list of statement handlers in order. The first handler that claims the bind ends it. If no handler claims it, the default bind runs.
- **Connection acquisition.** It takes the pooled connection and passes it through a list of preprocessors, each receiving what the previous one returned.
- **JSON conversion.** It turns materialised rows and live cursors into insertion-ordered JSON objects and arrays. There are eight `TOJSONOBJECT`/`TOJSONARRAY` conversions. Each column is written through the explicit row mapper if there is one, else through the process-wide default mapper, else copied verbatim.

**The registry (`GSQLProvider`)** is a Spring bean. It keeps an insertion-ordered table of SQL descriptors:
- It fills the table once from the bean factory. Names are trimmed, and blank names and null descriptors are skipped. Each accepted descriptor is told its name.
- It looks descriptors up by trimmed name.
- It lists the names in insertion order.
- It closes every descriptor, swallowing failures.

Modules:

| file | module | contents |
|---|---|---|
| `wrappers.dfy` | `Wrappers` | `Option`, `Result` |
| `linked_maps.dfy` | `LinkedMaps` | an insertion-ordered map. It is the model of both `java.util.LinkedHashMap` and `JSONObject`'s put semantics. |
| `string_ops.dfy` | `StringOps` | `String.trim` and `toTrimOrNull` |
| `jdbc.dfy` | `Jdbc` | abstract statements, connections, data sources and values, plus a forward-only result cursor (`ResultCursor`) |
| `gsql.dfy` | `GSql` | the executor: `Executor` holds the instance state and `Statics` holds the class's static default mapper |
| `gsql_provider.dfy` | `GSqlProvider` | the registry: `Descriptor` and `Provider` |

Three kinds of failure are modelled as Java would raise them:
- A handler, preprocessor or driver that throws gives the `Fail` case of `Result`.
- Java `null` arguments are `None` in an `Option`, or a `null` reference.
- A null argument gives `NullArgument`, carrying the message that `Objects.requireNonNull` uses in the source.

Bind handlers, preprocessors, the default bind and row mappers are passed in as function values. Their effect on the statement, the connection or the JSON object is whatever that function returns.

## Model

Source paths are relative to the repository root. `GSQL.java` is `src/main/groovy/com/ait/tooling/server/sql/GSQL.java`, and `GSQLProvider.java` is `src/main/groovy/com/ait/tooling/server/sql/support/spring/GSQLProvider.java`.

| member | source | states |
|---|---|---|
| GSql.Executor.constructor | src/main/groovy/com/ait/tooling/server/sql/GSQL.java:88-91 | The new executor holds the given data source and the superclass's default bind. Both handler lists start null. |
| GSql.Executor.SetStatementSetObjectHandlers | src/main/groovy/com/ait/tooling/server/sql/GSQL.java:93-96 | The bind-handler list becomes the given list, possibly null. Nothing else changes. |
| GSql.Executor.SetPreProcessConnectionHandlers | src/main/groovy/com/ait/tooling/server/sql/GSQL.java:98-101 | The preprocessor list becomes the given list, possibly null. Nothing else changes. |
| GSql.Statics.SetDefaultRowObjectMapper | src/main/groovy/com/ait/tooling/server/sql/GSQL.java:83-86 | The process-wide default mapper becomes the given mapper, possibly null. |
| GSql.Executor.SetObject | src/main/groovy/com/ait/tooling/server/sql/GSQL.java:111-136 | The bind's outcome and the exact sequence of calls equal `BindSpec`. That is the default bind alone when the list is null or empty, otherwise the handler chain. |
| GSql.Executor.CreateConnection | src/main/groovy/com/ait/tooling/server/sql/GSQL.java:143-165 | The result equals the fold `ConnectionSpec`. An exception from the pool comes back unchanged. From a pooled connection the result is h_n(...h_1(c)), the front-recursive reference `Nested`. |
| GSql.ReachedPrefix | src/main/groovy/com/ait/tooling/server/sql/GSQL.java:120-134 | Once handler j is reached, the run so far consulted exactly handlers 0 .. j-1, in order, and the rest is the chain from j on. |
| GSql.NoHandlersDefaultOnce | src/main/groovy/com/ait/tooling/server/sql/GSQL.java:114-117 | With a null or empty list, only the default bind runs, exactly once. |
| GSql.FirstClaimWins | src/main/groovy/com/ait/tooling/server/sql/GSQL.java:124-129 | The first handler that returns true ends the bind with its statement. Handlers 0 .. k are called, no later handler is called, and the default bind does not run. |
| GSql.HandlerFailurePropagates | src/main/groovy/com/ait/tooling/server/sql/GSQL.java:124 | A handler that throws ends the bind with its exception, with no later call. |
| GSql.AllDeclineDefaultOnce | src/main/groovy/com/ait/tooling/server/sql/GSQL.java:131-134 | When every handler declines, each is called once in list order, then the default bind runs once, last, on the statement the last handler left. |
| GSql.StopBelow | src/main/groovy/com/ait/tooling/server/sql/GSQL.java:122-130 | If the default bind is not reached, some reached handler claimed the bind or threw. |
| GSql.BindTrace | src/main/groovy/com/ait/tooling/server/sql/GSQL.java:114-135 | Every bind consults handlers in order, each at most once. The default bind appears in the trace if and only if all handlers declined, and then it comes last. Otherwise the trace is a non-empty prefix of the handler list. |
| GSql.PreprocessedAppend | src/main/groovy/com/ait/tooling/server/sql/GSQL.java:158-161 | Folding through a concatenation of handler lists is folding through each list in turn. |
| GSql.PoolFailurePropagates | src/main/groovy/com/ait/tooling/server/sql/GSQL.java:156 | An exception from the pool passes through any handler list unchanged. |
| GSql.PreprocessedIsNested | src/main/groovy/com/ait/tooling/server/sql/GSQL.java:156-164 | The loop's left fold equals h_n(...h_1(c)), stopping at the first handler that throws. |
| GSql.VerbatimTranscription | src/main/groovy/com/ait/tooling/server/sql/GSQL.java:184-187 | Without a mapper, transcription is a sequence of `put`s. |
| GSql.VerbatimKeys | src/main/groovy/com/ait/tooling/server/sql/GSQL.java:184-187 | Without a mapper, the object's keys are the row's labels in first-occurrence order. |
| GSql.VerbatimValues | src/main/groovy/com/ait/tooling/server/sql/GSQL.java:184-187 | Without a mapper, each label holds the value of its last column. |
| GSql.VerbatimCopy | src/main/groovy/com/ait/tooling/server/sql/GSQL.java:184-187 | Without a mapper and with distinct labels, the object is exactly the row: the same keys in the same order, each with its own value. |
| GSql.Statics.RowToJsonObjectWith | src/main/groovy/com/ait/tooling/server/sql/GSQL.java:172-197 | A null row fails with "GroovyRowResult was null". Otherwise the result is the row transcribed in key order into a fresh object, through the explicit mapper, else the default one, else verbatim. |
| GSql.Statics.RowToJsonObject | src/main/groovy/com/ait/tooling/server/sql/GSQL.java:167-170 | The same, with the default mapper. |
| GSql.Statics.CursorToJsonObjectWith | src/main/groovy/com/ait/tooling/server/sql/GSQL.java:204-237 | A null cursor fails. No columns gives an empty object. A cursor off any row raises the driver's exception. Otherwise the result is the current row transcribed over columns 1 .. cols under the effective mapper. |
| GSql.Statics.CursorToJsonObject | src/main/groovy/com/ait/tooling/server/sql/GSQL.java:199-202 | The same, with the default mapper. |
| GSql.Statics.RowsToJsonArrayWith | src/main/groovy/com/ait/tooling/server/sql/GSQL.java:244-259 | A null list fails with "List<GroovyRowResult> was null". Otherwise there is one object per row, in list order, and element j is `TOJSONOBJECT(list[j], mapper)`. |
| GSql.Statics.RowsToJsonArray | src/main/groovy/com/ait/tooling/server/sql/GSQL.java:239-242 | The same, with the default mapper. |
| GSql.Statics.CursorToJsonArrayWith | src/main/groovy/com/ait/tooling/server/sql/GSQL.java:266-311 | A null cursor fails. No columns gives an empty array and leaves the cursor where it was. Otherwise the cursor is drained, and element j is the j-th row not yet visited, transcribed under the effective mapper. |
| GSql.Statics.CursorToJsonArray | src/main/groovy/com/ait/tooling/server/sql/GSQL.java:261-264 | The same, with the default mapper. |
| GSql.Statics.ReadLabels | src/main/groovy/com/ait/tooling/server/sql/GSQL.java:284-289 | The labels array holds label i at index i-1. |
| GSql.Statics.DrainRows | src/main/groovy/com/ait/tooling/server/sql/GSQL.java:290-309 | `while (rset.next())` ends after the last row and yields one object per remaining row, in cursor order. |
| GSql.Statics.DrainStep | src/main/groovy/com/ait/tooling/server/sql/GSQL.java:290-308 | One turn of that loop transcribes the current row and advances the cursor by one. |
| GSql.Statics.TranscribeCurrentRow | src/main/groovy/com/ait/tooling/server/sql/GSQL.java:292-307 | The object built for the current row is that row transcribed under the labels read up front. |
| Jdbc.ResultCursor.Next | src/main/groovy/com/ait/tooling/server/sql/GSQL.java:290 | `next()` moves one row forward. It returns true exactly on a row, and the remaining rows lose their head. |
| Jdbc.ResultCursor.GetObject | src/main/groovy/com/ait/tooling/server/sql/GSQL.java:226 | `getObject(i)` is column i of the current row, or the driver's exception off any row. |
| LinkedMaps.Get | src/main/groovy/com/ait/tooling/server/sql/support/spring/GSQLProvider.java:48 | `get` finds a value exactly for the keys present. |
| LinkedMaps.Put | src/main/groovy/com/ait/tooling/server/sql/support/spring/GSQLProvider.java:80 | After `put`, the key holds the new value and other keys are unchanged. A known key keeps its position and a new key goes last. |
| LinkedMaps.DedupMembers | src/main/groovy/com/ait/tooling/server/sql/support/spring/GSQLProvider.java:58 | First-occurrence order keeps exactly the elements of the input. |
| LinkedMaps.DedupOfDistinct | src/main/groovy/com/ait/tooling/server/sql/support/spring/GSQLProvider.java:58 | A sequence without repeats is its own first-occurrence order. |
| LinkedMaps.PutAllGet | src/main/groovy/com/ait/tooling/server/sql/support/spring/GSQLProvider.java:80 | After a series of puts, a key holds its last value in the series, or its old value if the series never names it. |
| LinkedMaps.PutAllKeys | src/main/groovy/com/ait/tooling/server/sql/support/spring/GSQLProvider.java:80 | After a series of puts, the keys are the old keys, then each new key at its first occurrence. |
| LinkedMaps.LastValueOfDistinct | src/main/groovy/com/ait/tooling/server/sql/GSQL.java:184-187 | With distinct keys, each pair's key has that pair's value as its last value. |
| LinkedMaps.PutAllDistinctKeys | src/main/groovy/com/ait/tooling/server/sql/GSQL.java:184-187 | Putting distinct keys into an empty map keeps exactly those keys, in order. |
| LinkedMaps.PutAllDistinctGet | src/main/groovy/com/ait/tooling/server/sql/GSQL.java:184-187 | Putting distinct keys into an empty map stores each pair's value under its key. |
| StringOps.LeadingBlanks | src/main/groovy/com/ait/tooling/server/sql/support/spring/GSQLProvider.java:44 | Counts the blank prefix: all blank, and followed by a non-blank if anything follows. |
| StringOps.TrailingBlanks | src/main/groovy/com/ait/tooling/server/sql/support/spring/GSQLProvider.java:44 | Counts the blank suffix, symmetrically. |
| StringOps.Trim | src/main/groovy/com/ait/tooling/server/sql/support/spring/GSQLProvider.java:44 | The result has no blank at either end and is never longer than the input. |
| StringOps.TrimPadded | src/main/groovy/com/ait/tooling/server/sql/support/spring/GSQLProvider.java:44 | Trimming removes exactly the blank padding around a trimmed core. |
| StringOps.TrimIdempotent | src/main/groovy/com/ait/tooling/server/sql/support/spring/GSQLProvider.java:44 | Trimming twice is trimming once. |
| StringOps.ToTrimOrNull | src/main/groovy/com/ait/tooling/server/sql/support/spring/GSQLProvider.java:68-70 | The result is null exactly for null or all-blank input. Otherwise it is the trimmed input. |
| StringOps.ToTrimOrNullOfTrim | src/main/groovy/com/ait/tooling/server/sql/support/spring/GSQLProvider.java:44 | A name and its trimmed form give the same key. |
| GSqlProvider.Descriptor.SetName | src/main/groovy/com/ait/tooling/server/sql/support/spring/GSQLProvider.java:76 | The descriptor records the given name. |
| GSqlProvider.Descriptor.Close | src/main/groovy/com/ait/tooling/server/sql/support/spring/GSQLProvider.java:95 | One more close attempt, which reports its failure if there is one. |
| GSqlProvider.FilterFrom | src/main/groovy/com/ait/tooling/server/sql/support/spring/GSQLProvider.java:66-83 | Each registration comes from a bean whose cleaned name and descriptor it carries. |
| GSqlProvider.FilterMember | src/main/groovy/com/ait/tooling/server/sql/support/spring/GSQLProvider.java:70-80 | A bean with a non-blank name and a non-null descriptor has its descriptor registered. |
| GSqlProvider.AcceptedNamesTrimmed | src/main/groovy/com/ait/tooling/server/sql/support/spring/GSQLProvider.java:68-70 | Every registered name is non-blank and already trimmed. |
| GSqlProvider.RejectedBeanIsNoOp | src/main/groovy/com/ait/tooling/server/sql/support/spring/GSQLProvider.java:68-74 | A bean whose name trims to nothing, or whose descriptor is null, leaves the table as it was. |
| GSqlProvider.AcceptedBeanIsPut | src/main/groovy/com/ait/tooling/server/sql/support/spring/GSQLProvider.java:76-80 | Any other bean is put under its trimmed name. The later registration wins, other names are unaffected, a name already present keeps its position, and a new name goes last. |
| GSqlProvider.RegisteredGet | src/main/groovy/com/ait/tooling/server/sql/support/spring/GSQLProvider.java:66-83 | After registration, a name holds the last descriptor registered under it, or what the table held before. |
| GSqlProvider.RegisteredKeys | src/main/groovy/com/ait/tooling/server/sql/support/spring/GSQLProvider.java:66-83 | After registration, the key order is the old keys, then each new trimmed name at its first registration. |
| GSqlProvider.LastNameOfMember | src/main/groovy/com/ait/tooling/server/sql/support/spring/GSQLProvider.java:76 | Every registered descriptor has a last registered name. |
| GSqlProvider.RegisteredEntries | src/main/groovy/com/ait/tooling/server/sql/support/spring/GSQLProvider.java:76-80 | Assume no descriptor is handed out under two names. Then each entry of the new table is either a descriptor last registered under that very key, or the old entry. |
| GSqlProvider.RegisteredNames | src/main/groovy/com/ait/tooling/server/sql/support/spring/GSQLProvider.java:55-83 | Filling a fresh registry lists each registered trimmed name once, in the order of its first registration, and no other name. |
| GSqlProvider.AcceptedAreNamed | src/main/groovy/com/ait/tooling/server/sql/support/spring/GSQLProvider.java:70-80 | Every accepted descriptor gets a name, and that name is a key of the registered table. |
| GSqlProvider.Provider.constructor | src/main/groovy/com/ait/tooling/server/sql/support/spring/GSQLProvider.java:39 | The new registry's table is empty. |
| GSqlProvider.Provider.GetSQLDescriptor | src/main/groovy/com/ait/tooling/server/sql/support/spring/GSQLProvider.java:41-53 | A null or blank name gives null. Otherwise the result is non-null exactly when the trimmed name is registered, and then it is that entry. |
| GSqlProvider.Provider.GetSQLDescriptorNames | src/main/groovy/com/ait/tooling/server/sql/support/spring/GSQLProvider.java:55-59 | Every registered name appears exactly once, and nothing else appears. The result is an immutable sequence. |
| GSqlProvider.Provider.SetBeanFactory | src/main/groovy/com/ait/tooling/server/sql/support/spring/GSQLProvider.java:61-85 | A factory that is not a `DefaultListableBeanFactory` leaves the table unchanged, whatever beans it holds. Otherwise the table becomes `Registered(old table, beans)` and each accepted descriptor records the last name it was registered under. Given the old table matched names and the beans are coherent, every key still equals its descriptor's name. |
| GSqlProvider.Provider.RegisterAll | src/main/groovy/com/ait/tooling/server/sql/support/spring/GSQLProvider.java:66-83 | The registration loop puts the accepted beans in bean order and names each accepted descriptor. |
| GSqlProvider.Provider.RegisterBean | src/main/groovy/com/ait/tooling/server/sql/support/spring/GSQLProvider.java:68-81 | One turn of that loop extends both the table and the naming invariant by one bean. |
| GSqlProvider.Provider.NameDescriptor | src/main/groovy/com/ait/tooling/server/sql/support/spring/GSQLProvider.java:76 | `setName` keeps every registered descriptor named after its latest registration. |
| GSqlProvider.Provider.Close | src/main/groovy/com/ait/tooling/server/sql/support/spring/GSQLProvider.java:87-102 | Every entry is closed in insertion order and its failure, if any, is recorded and swallowed. The table and the names are unchanged. When names match keys, each descriptor is closed exactly once. |
| GSqlProvider.LookupIgnoresPadding | src/main/groovy/com/ait/tooling/server/sql/support/spring/GSQLProvider.java:44-48 | A name padded with blanks on either side finds the same descriptor as the bare name. |
| GSqlProvider.LookupTrims | src/main/groovy/com/ait/tooling/server/sql/support/spring/GSQLProvider.java:44-48 | Any name and its trimmed form find the same descriptor. |

## Left out

- `GSQLContextInstance` and `getDefaultSQLDescriptorName` (`GSQLProvider.java:104-112`) are not part of this model. They read a property through the application context, which is outside the core.
- The descriptors' own behaviour is not modelled: `make()`, the active flag and what `close()` releases. A descriptor is reduced to its recorded name, a close counter and an optional close failure.
- The `GSQL*PARAMETER` factories (`GSQL.java:51-81`) are left out. They only build parameter holder objects.
- Timing (`System.currentTimeMillis`) and all logging are left out. Neither affects a result.
- Real JDBC is not modelled. Statements, connections, data sources and column values are abstract types. The driver's bind and the handlers are function values. The pool is not called: `Executor.CreateConnection` takes the outcome of `super.createConnection()`, a connection or its exception, as a parameter.
- Spring is reduced to the bean list. A `DefaultListableBeanFactory` is given as `getBeansOfType(...).keySet()` paired with what `getBean(trimmed name)` returns. `getBean` throwing (no bean under the trimmed name) is not modelled. Any other factory, including a listable factory of another class, is `OtherBeanFactory`, which the source ignores (`GSQLProvider.java:64`).
- The `DataSource was null` check of the constructor (`GSQL.java:88-91`): `Executor.constructor` takes a non-null data source, so that failure is not modelled.
- Row mappers that throw are not modelled: a mapper is a total function from (object, label, value) to the new object.
- JDBC metadata calls (`getMetaData`, `getColumnCount`, `getColumnLabel`) are modelled as never throwing. Only `getObject` off a row raises the driver's exception.
- A `null` element inside the handler list or the preprocessor list is not modelled. The source would throw a `NullPointerException` on it (`GSQL.java:124`, `GSQL.java:160`), but the lists hold only handlers here.
- A `null` element inside the row list of `TOJSONARRAY(list)` is not modelled. The list's elements are always rows.
- `GroovyRowResult`'s case-insensitive key lookup is not modelled. A row is a sequence of (label, value) pairs in key order.
- `StringOps.toTrimOrNull` belongs to a library that is not part of this model. It is assumed to trim as `String.trim` does.
- `GSqlProvider.Provider.GetSQLDescriptorNames`: the read-only collection view is modelled as an immutable sequence snapshot of the keys. The model does not capture that a live view would show later registrations.
- `GSqlProvider.Provider.SetBeanFactory`: the "key equals descriptor name" invariant is stated under an explicit coherence hypothesis. That hypothesis is that the container does not hand out one descriptor object under two different names. Without it, the source itself does not keep the invariant.
- `GSqlProvider.Provider.Close`: "closed exactly once each" is stated only when names match keys, which implies that distinct keys hold distinct descriptors. If one descriptor sat under two keys, the source would close it twice.
