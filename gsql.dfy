/**
  The SQL executor (GSQL, an extension of groovy.sql.Sql): parameter binding
  through a first-claim-wins chain of handlers, connection acquisition through
  a left fold of preprocessors, and the conversions of result rows into
  insertion-ordered JSON objects and arrays.
 */
module GSql {
  import opened Wrappers
  import opened LinkedMaps
  import opened Jdbc

  // ---------------------------------------------------------------------
  // Parameter binding: IGSQLStatementSetObjectHandler chain
  // ---------------------------------------------------------------------

  /** What a statement handler returns: whether it claimed the bind, and the statement it leaves. */
  datatype HandlerReply = HandlerReply(claimed: bool, statement: Statement)

  /** A handler: given the statement, the 1-based parameter index and the value, claims the bind or declines; it may throw. */
  type SetObjectHandler = (Statement, int, Value) -> Result<HandlerReply, Error>

  /** The default, type-directed bind of groovy.sql.Sql.setObject; it may throw. */
  type DefaultSetObject = (Statement, int, Value) -> Result<Statement, Error>

  /** The observable calls of one bind: handler number `index` was consulted, or the default bind ran. */
  datatype BindEvent = HandlerCalled(index: nat) | DefaultBind

  /** The statement after the bind (or the exception that escaped it) and the calls made, in order. */
  datatype Binding = Binding(outcome: Result<Statement, Error>, trace: seq<BindEvent>)

  /** The trace of consulting handlers 0 .. n-1 in order. */
  function Calls(n: nat): seq<BindEvent>
  {
    seq(n, j requires 0 <= j < n => HandlerCalled(j))
  }

  /** Consulting the handlers from number k on, with `st` as the statement handler k sees. */
  function ConsultFrom(hs: seq<SetObjectHandler>, k: nat, dflt: DefaultSetObject,
                       st: Statement, i: int, v: Value): Binding
    requires k <= |hs|
    decreases |hs| - k
  {
    if k == |hs| then Binding(dflt(st, i, v), [DefaultBind])
    else match hs[k](st, i, v)
      case Fail(e) => Binding(Fail(e), [HandlerCalled(k)])
      case Ok(reply) =>
        if reply.claimed then Binding(Ok(reply.statement), [HandlerCalled(k)])
        else
          var rest := ConsultFrom(hs, k + 1, dflt, reply.statement, i, v);
          Binding(rest.outcome, [HandlerCalled(k)] + rest.trace)
  }

  /** setObject: with no handler list (null or empty) only the default bind runs; otherwise the chain is consulted. */
  function BindSpec(handlers: Option<seq<SetObjectHandler>>, dflt: DefaultSetObject,
                    st: Statement, i: int, v: Value): Binding
  {
    if handlers.None? || |handlers.value| == 0 then Binding(dflt(st, i, v), [DefaultBind])
    else ConsultFrom(handlers.value, 0, dflt, st, i, v)
  }

  /**
    Reference definition: the statement handler k receives when handlers
    0 .. k-1 all returned false without throwing, or None if one of them
    claimed the bind or threw (for k == |hs|: the statement the default bind receives).
   */
  function Reaches(hs: seq<SetObjectHandler>, k: nat, st: Statement, i: int, v: Value): Option<Statement>
    requires k <= |hs|
    decreases k
  {
    if k == 0 then Some(st)
    else match Reaches(hs, k - 1, st, i, v)
      case None => None
      case Some(s) =>
        match hs[k - 1](s, i, v)
        case Ok(HandlerReply(false, s')) => Some(s')
        case _ => None
  }

  /** Handler k declines the bind when it returns false without throwing. */
  predicate Declines(h: SetObjectHandler, st: Statement, i: int, v: Value) {
    h(st, i, v).Ok? && !h(st, i, v).value.claimed
  }

  /** Once handler j is reached, the run so far is exactly handlers 0 .. j-1 in order. */
  lemma {:induction false} ReachedPrefix(hs: seq<SetObjectHandler>, j: nat, dflt: DefaultSetObject,
                                         st: Statement, i: int, v: Value)
    requires j <= |hs| && Reaches(hs, j, st, i, v).Some?
    ensures var rest := ConsultFrom(hs, j, dflt, Reaches(hs, j, st, i, v).value, i, v);
            ConsultFrom(hs, 0, dflt, st, i, v) == Binding(rest.outcome, Calls(j) + rest.trace)
    decreases j
  {
    if j > 0 {
      ReachedPrefix(hs, j - 1, dflt, st, i, v);
      var rest := ConsultFrom(hs, j, dflt, Reaches(hs, j, st, i, v).value, i, v);
      assert Calls(j - 1) + ([HandlerCalled(j - 1)] + rest.trace) == Calls(j) + rest.trace;
    }
  }

  /** With a null or empty handler list the default bind runs exactly once and no handler is called. */
  lemma NoHandlersDefaultOnce(handlers: Option<seq<SetObjectHandler>>, dflt: DefaultSetObject,
                              st: Statement, i: int, v: Value)
    requires handlers.None? || handlers.value == []
    ensures BindSpec(handlers, dflt, st, i, v) == Binding(dflt(st, i, v), [DefaultBind])
  {
  }

  /** The first handler to claim the bind ends it: no later handler is called and the default bind does not run. */
  lemma FirstClaimWins(hs: seq<SetObjectHandler>, k: nat, dflt: DefaultSetObject,
                       st: Statement, i: int, v: Value)
    requires k < |hs| && Reaches(hs, k, st, i, v).Some?
    requires var s := Reaches(hs, k, st, i, v).value; hs[k](s, i, v).Ok? && hs[k](s, i, v).value.claimed
    ensures var s := Reaches(hs, k, st, i, v).value;
            BindSpec(Some(hs), dflt, st, i, v) == Binding(Ok(hs[k](s, i, v).value.statement), Calls(k + 1))
  {
    ReachedPrefix(hs, k, dflt, st, i, v);
    assert Calls(k) + [HandlerCalled(k)] == Calls(k + 1);
  }

  /** A handler that throws ends the bind with its exception: no later handler, no default bind. */
  lemma HandlerFailurePropagates(hs: seq<SetObjectHandler>, k: nat, dflt: DefaultSetObject,
                                 st: Statement, i: int, v: Value)
    requires k < |hs| && Reaches(hs, k, st, i, v).Some?
    requires hs[k](Reaches(hs, k, st, i, v).value, i, v).Fail?
    ensures var s := Reaches(hs, k, st, i, v).value;
            BindSpec(Some(hs), dflt, st, i, v) == Binding(Fail(hs[k](s, i, v).error), Calls(k + 1))
  {
    ReachedPrefix(hs, k, dflt, st, i, v);
    assert Calls(k) + [HandlerCalled(k)] == Calls(k + 1);
  }

  /** When every handler declines, each is called once, in order, and then the default bind runs once. */
  lemma AllDeclineDefaultOnce(hs: seq<SetObjectHandler>, dflt: DefaultSetObject,
                              st: Statement, i: int, v: Value)
    requires Reaches(hs, |hs|, st, i, v).Some?
    ensures var s := Reaches(hs, |hs|, st, i, v).value;
            BindSpec(Some(hs), dflt, st, i, v) == Binding(dflt(s, i, v), Calls(|hs|) + [DefaultBind])
  {
    ReachedPrefix(hs, |hs|, dflt, st, i, v);
  }

  /** If the default bind is not reached, some handler was reached and did not decline. */
  lemma {:induction false} StopBelow(hs: seq<SetObjectHandler>, n: nat, st: Statement, i: int, v: Value)
    returns (k: nat)
    requires n <= |hs| && Reaches(hs, n, st, i, v).None?
    ensures k < n && Reaches(hs, k, st, i, v).Some?
    ensures !Declines(hs[k], Reaches(hs, k, st, i, v).value, i, v)
    decreases n
  {
    if Reaches(hs, n - 1, st, i, v).Some? {
      k := n - 1;
    } else {
      k := StopBelow(hs, n - 1, st, i, v);
    }
  }

  /**
    Shape of every bind: the handlers are consulted in list order, each at
    most once, and the default bind runs exactly when all of them declined,
    once and last.
   */
  lemma BindTrace(handlers: Option<seq<SetObjectHandler>>, dflt: DefaultSetObject,
                  st: Statement, i: int, v: Value)
    ensures var hs := if handlers.Some? then handlers.value else [];
            var b := BindSpec(handlers, dflt, st, i, v);
            && (DefaultBind in b.trace <==> Reaches(hs, |hs|, st, i, v).Some?)
            && (b.trace == Calls(|hs|) + [DefaultBind]
                || (1 <= |b.trace| <= |hs| && b.trace == Calls(|b.trace|)))
  {
    var hs := if handlers.Some? then handlers.value else [];
    if Reaches(hs, |hs|, st, i, v).Some? {
      if hs != [] {
        AllDeclineDefaultOnce(hs, dflt, st, i, v);
      }
    } else {
      var k := StopBelow(hs, |hs|, st, i, v);
      var s := Reaches(hs, k, st, i, v).value;
      if hs[k](s, i, v).Fail? {
        HandlerFailurePropagates(hs, k, dflt, st, i, v);
      } else {
        FirstClaimWins(hs, k, dflt, st, i, v);
      }
    }
  }

  // ---------------------------------------------------------------------
  // Connection acquisition: IGSQLPreProcessConnectionHandler chain
  // ---------------------------------------------------------------------

  /** A preprocessor: receives a connection and returns a (possibly wrapped) one; it may throw. */
  type PreProcessConnectionHandler = Connection -> Result<Connection, Error>

  /** Passing the connection through the preprocessors in order (defined by its last step, as the loop runs). */
  function Preprocessed(hs: seq<PreProcessConnectionHandler>, c: Result<Connection, Error>): Result<Connection, Error>
    decreases |hs|
  {
    if hs == [] then c
    else match Preprocessed(hs[..|hs| - 1], c)
      case Fail(e) => Fail(e)
      case Ok(x) => hs[|hs| - 1](x)
  }

  /** Reference definition: h_n(...h_1(c)), stopping at the first preprocessor that throws. */
  function Nested(hs: seq<PreProcessConnectionHandler>, c: Connection): Result<Connection, Error>
    decreases |hs|
  {
    if hs == [] then Ok(c)
    else match hs[0](c)
      case Fail(e) => Fail(e)
      case Ok(x) => Nested(hs[1..], x)
  }

  /** createConnection: the pooled connection as is when the list is null or empty, else folded through it. */
  function ConnectionSpec(handlers: Option<seq<PreProcessConnectionHandler>>,
                          pooled: Result<Connection, Error>): Result<Connection, Error>
  {
    if handlers.None? || |handlers.value| == 0 then pooled
    else Preprocessed(handlers.value, pooled)
  }

  /** Folding through a concatenation is folding through each part in turn. */
  lemma {:induction false} PreprocessedAppend(hs: seq<PreProcessConnectionHandler>,
                                              gs: seq<PreProcessConnectionHandler>,
                                              c: Result<Connection, Error>)
    ensures Preprocessed(hs + gs, c) == Preprocessed(gs, Preprocessed(hs, c))
    decreases |gs|
  {
    if gs == [] {
      assert hs + gs == hs;
    } else {
      var gs' := gs[..|gs| - 1];
      PreprocessedAppend(hs, gs', c);
      assert (hs + gs)[..|hs + gs| - 1] == hs + gs';
    }
  }

  /** An exception from the pool propagates unchanged: no preprocessor turns it into a connection. */
  lemma {:induction false} PoolFailurePropagates(hs: seq<PreProcessConnectionHandler>, e: Error)
    ensures Preprocessed(hs, Fail(e)) == Fail(e)
    decreases |hs|
  {
    if hs != [] {
      PoolFailurePropagates(hs[..|hs| - 1], e);
    }
  }

  /** The loop's fold computes h_n(...h_1(c)). */
  lemma {:induction false} PreprocessedIsNested(hs: seq<PreProcessConnectionHandler>, c: Connection)
    ensures Preprocessed(hs, Ok(c)) == Nested(hs, c)
    decreases |hs|
  {
    if hs != [] {
      assert hs == [hs[0]] + hs[1..];
      PreprocessedAppend([hs[0]], hs[1..], Ok(c));
      assert Preprocessed([hs[0]], Ok(c)) == hs[0](c);
      match hs[0](c)
      case Fail(e) => PoolFailurePropagates(hs[1..], e);
      case Ok(x) => PreprocessedIsNested(hs[1..], x);
    }
  }

  // ---------------------------------------------------------------------
  // Row transcription: IGSQLRowObjectMapper and the JSON targets
  // ---------------------------------------------------------------------

  /** A JSONObject: an insertion-ordered string-keyed map with put semantics. */
  type JsonObject = LinkedMap<string, Value>

  /** A JSONArray of row objects. */
  type JsonArray = seq<JsonObject>

  /** A row mapper: writes one column (label, raw value) into the object being built. */
  type RowObjectMapper = (JsonObject, string, Value) -> JsonObject

  /** A materialised row (groovy.sql.GroovyRowResult): its (label, value) pairs in key order. */
  type Row = seq<(string, Value)>

  /** The mapper a conversion uses: the explicit one, else the process-wide default, else none (verbatim copy). */
  function EffectiveMapper(explicit: Option<RowObjectMapper>, fallback: Option<RowObjectMapper>): Option<RowObjectMapper>
  {
    if explicit.Some? then explicit else fallback
  }

  /** One column written into the object: `put(column, value)` without a mapper, `mapper.map(object, column, value)` with one. */
  function Transcribe(mapper: Option<RowObjectMapper>, obj: JsonObject, column: string, value: Value): JsonObject
  {
    match mapper
    case None => Put(obj, column, value)
    case Some(m) => m(obj, column, value)
  }

  /** The columns written into the object one by one, in order. */
  function TranscribeAll(mapper: Option<RowObjectMapper>, obj: JsonObject, pairs: Row): JsonObject
    decreases |pairs|
  {
    if pairs == [] then obj
    else Transcribe(mapper, TranscribeAll(mapper, obj, pairs[..|pairs| - 1]),
                    pairs[|pairs| - 1].0, pairs[|pairs| - 1].1)
  }

  /** The JSON object of one row, built from a fresh object. */
  function RowObject(mapper: Option<RowObjectMapper>, row: Row): JsonObject
  {
    TranscribeAll(mapper, Empty(), row)
  }

  /** The row the cursor's metadata and current values make: column i is (label i, value i). */
  function Columns(labels: seq<string>, values: seq<Value>): Row
    requires |values| == |labels|
  {
    seq(|labels|, j requires 0 <= j < |labels| => (labels[j], values[j]))
  }

  /** Without a mapper, transcription is a sequence of puts. */
  lemma {:induction false} VerbatimTranscription(obj: JsonObject, pairs: Row)
    ensures TranscribeAll(None, obj, pairs) == PutAll(obj, pairs)
    decreases |pairs|
  {
    if pairs != [] {
      VerbatimTranscription(obj, pairs[..|pairs| - 1]);
    }
  }

  /** Without a mapper, the object lists the row's labels in first-occurrence order. */
  lemma VerbatimKeys(row: Row)
    ensures RowObject(None, row).keys == Dedup(Keys(row))
  {
    VerbatimTranscription(Empty(), row);
    PutAllKeys(Empty<string, Value>(), row);
    assert Empty<string, Value>().keys + Keys(row) == Keys(row);
  }

  /** Without a mapper, each label holds the value of its last column in the row. */
  lemma VerbatimValues(row: Row, column: string)
    ensures Get(RowObject(None, row), column) == LastValue(row, column)
  {
    VerbatimTranscription(Empty(), row);
    PutAllGet(Empty(), row, column);
  }

  /** Without a mapper and with distinct labels, the object holds exactly the row, in key order. */
  lemma VerbatimCopy(row: Row)
    requires Distinct(Keys(row))
    ensures RowObject(None, row).keys == Keys(row)
    ensures forall j :: 0 <= j < |row| ==> Get(RowObject(None, row), row[j].0) == Some(row[j].1)
  {
    VerbatimTranscription(Empty(), row);
    PutAllDistinctKeys(row);
    forall j | 0 <= j < |row|
      ensures Get(RowObject(None, row), row[j].0) == Some(row[j].1)
    {
      PutAllDistinctGet(row, j);
    }
  }

  // ---------------------------------------------------------------------
  // The executor object and the class's static part
  // ---------------------------------------------------------------------

  /** A GSQL instance: its data source and the two handler lists set by setters (null until set). */
  class Executor {
    const dataSource: DataSource
    /** The superclass's setObject, used when no handler claims a bind. */
    const defaultSetObject: DefaultSetObject
    var setObjectHandlers: Option<seq<SetObjectHandler>>
    var preProcessHandlers: Option<seq<PreProcessConnectionHandler>>

    constructor (ds: DataSource, defaultSetObject: DefaultSetObject)
      ensures dataSource == ds && this.defaultSetObject == defaultSetObject
      ensures setObjectHandlers == None && preProcessHandlers == None
    {
      dataSource := ds;
      this.defaultSetObject := defaultSetObject;
      setObjectHandlers := None;
      preProcessHandlers := None;
    }

    method SetStatementSetObjectHandlers(list: Option<seq<SetObjectHandler>>)
      modifies this`setObjectHandlers
      ensures setObjectHandlers == list
    {
      setObjectHandlers := list;
    }

    method SetPreProcessConnectionHandlers(list: Option<seq<PreProcessConnectionHandler>>)
      modifies this`preProcessHandlers
      ensures preProcessHandlers == list
    {
      preProcessHandlers := list;
    }

    /** setObject: consults the handlers in order until one claims the bind, else runs the default bind. */
    method SetObject(statement: Statement, i: int, value: Value) returns (b: Binding)
      ensures b == BindSpec(setObjectHandlers, defaultSetObject, statement, i, value)
    {
      if setObjectHandlers.None? || |setObjectHandlers.value| == 0 {
        var out := defaultSetObject(statement, i, value);
        return Binding(out, [DefaultBind]);
      }
      var hs := setObjectHandlers.value;
      var done := false;
      var st := statement;
      var trace: seq<BindEvent> := [];
      for k := 0 to |hs|
        invariant !done
        invariant Reaches(hs, k, statement, i, value) == Some(st)
        invariant trace == Calls(k)
      {
        var reply := hs[k](st, i, value);
        trace := trace + [HandlerCalled(k)];
        if reply.Fail? {
          HandlerFailurePropagates(hs, k, defaultSetObject, statement, i, value);
          return Binding(Fail(reply.error), trace);
        }
        if reply.value.claimed {
          FirstClaimWins(hs, k, defaultSetObject, statement, i, value);
          st := reply.value.statement;
          done := true;
          break;
        }
        st := reply.value.statement;
      }
      if !done {
        AllDeclineDefaultOnce(hs, defaultSetObject, statement, i, value);
        var out := defaultSetObject(st, i, value);
        trace := trace + [DefaultBind];
        b := Binding(out, trace);
      } else {
        b := Binding(Ok(st), trace);
      }
    }

    /** createConnection: takes the pooled connection (or its exception) and passes it through the preprocessors. */
    method CreateConnection(pooled: Result<Connection, Error>) returns (r: Result<Connection, Error>)
      ensures r == ConnectionSpec(preProcessHandlers, pooled)
      ensures pooled.Fail? ==> r == pooled
      ensures pooled.Ok? ==> r == Nested(if preProcessHandlers.Some? then preProcessHandlers.value else [], pooled.value)
    {
      if preProcessHandlers.None? || |preProcessHandlers.value| == 0 {
        return pooled;
      }
      var hs := preProcessHandlers.value;
      if pooled.Fail? {
        PoolFailurePropagates(hs, pooled.error);
        return pooled;
      }
      var connection := pooled.value;
      for k := 0 to |hs|
        invariant Preprocessed(hs[..k], pooled) == Ok(connection)
      {
        assert hs[..k + 1][..k] == hs[..k];
        var next := hs[k](connection);
        if next.Fail? {
          PreprocessedAppend(hs[..k + 1], hs[k + 1..], pooled);
          assert hs[..k + 1] + hs[k + 1..] == hs;
          PoolFailurePropagates(hs[k + 1..], next.error);
          PreprocessedIsNested(hs, pooled.value);
          return next;
        }
        connection := next.value;
      }
      assert hs[..|hs|] == hs;
      PreprocessedIsNested(hs, pooled.value);
      r := Ok(connection);
    }
  }

  /**
    The static part of GSQL: one object stands for the class, holding the
    process-wide default row mapper that the conversions fall back on.
   */
  class Statics {
    var defaultRowObjectMapper: Option<RowObjectMapper>

    constructor ()
      ensures defaultRowObjectMapper == None
    {
      defaultRowObjectMapper := None;
    }

    method SetDefaultRowObjectMapper(mapper: Option<RowObjectMapper>)
      modifies this
      ensures defaultRowObjectMapper == mapper
    {
      defaultRowObjectMapper := mapper;
    }

    /** TOJSONOBJECT(result, mapper): the row's columns transcribed into a fresh object, in key order. */
    method RowToJsonObjectWith(result: Option<Row>, mapper: Option<RowObjectMapper>)
      returns (r: Result<JsonObject, Error>)
      ensures result.None? ==> r == Fail(NullArgument("GroovyRowResult was null"))
      ensures result.Some? ==> r == Ok(RowObject(EffectiveMapper(mapper, defaultRowObjectMapper), result.value))
    {
      if result.None? {
        return Fail(NullArgument("GroovyRowResult was null"));
      }
      var row := result.value;
      var m := if mapper.None? then defaultRowObjectMapper else mapper;
      var obj: JsonObject := Empty();
      for j := 0 to |row|
        invariant obj == TranscribeAll(m, Empty(), row[..j])
      {
        assert row[..j + 1][..j] == row[..j];
        obj := Transcribe(m, obj, row[j].0, row[j].1);
      }
      assert row[..|row|] == row;
      r := Ok(obj);
    }

    /** TOJSONOBJECT(result): the same with the default mapper. */
    method RowToJsonObject(result: Option<Row>) returns (r: Result<JsonObject, Error>)
      ensures result.None? ==> r == Fail(NullArgument("GroovyRowResult was null"))
      ensures result.Some? ==> r == Ok(RowObject(defaultRowObjectMapper, result.value))
    {
      r := RowToJsonObjectWith(result, defaultRowObjectMapper);
    }

    /** TOJSONOBJECT(rset, mapper): the cursor's current row transcribed column by column, 1 .. cols. */
    method CursorToJsonObjectWith(rset: ResultCursor?, mapper: Option<RowObjectMapper>)
      returns (r: Result<JsonObject, Error>)
      requires rset != null ==> rset.Valid()
      ensures rset == null ==> r == Fail(NullArgument("GroovyResultSet was null"))
      ensures rset != null && rset.ColumnCount() < 1 ==> r == Ok(Empty())
      ensures rset != null && rset.ColumnCount() >= 1 && !rset.OnRow() ==> r == Fail(NotOnRow)
      ensures rset != null && rset.ColumnCount() >= 1 && rset.OnRow() ==>
                r == Ok(RowObject(EffectiveMapper(mapper, defaultRowObjectMapper),
                                  Columns(rset.labels, rset.rows[rset.position])))
    {
      if rset == null {
        return Fail(NullArgument("GroovyResultSet was null"));
      }
      var m := if mapper.None? then defaultRowObjectMapper else mapper;
      var obj: JsonObject := Empty();
      var cols := rset.ColumnCount();
      if cols < 1 {
        return Ok(obj);
      }
      for i := 1 to cols + 1
        invariant i > 1 ==> rset.OnRow()
        invariant rset.OnRow() ==>
                    obj == TranscribeAll(m, Empty(), Columns(rset.labels, rset.rows[rset.position])[..i - 1])
      {
        var v := rset.GetObject(i);
        if v.Fail? {
          return Fail(v.error);
        }
        assert rset.OnRow();
        ghost var row := Columns(rset.labels, rset.rows[rset.position]);
        assert row[..i][..i - 1] == row[..i - 1];
        obj := Transcribe(m, obj, rset.ColumnLabel(i), v.value);
      }
      ghost var row := Columns(rset.labels, rset.rows[rset.position]);
      assert row[..cols] == row;
      r := Ok(obj);
    }

    /** TOJSONOBJECT(rset): the same with the default mapper. */
    method CursorToJsonObject(rset: ResultCursor?) returns (r: Result<JsonObject, Error>)
      requires rset != null ==> rset.Valid()
      ensures rset == null ==> r == Fail(NullArgument("GroovyResultSet was null"))
      ensures rset != null && rset.ColumnCount() < 1 ==> r == Ok(Empty())
      ensures rset != null && rset.ColumnCount() >= 1 && !rset.OnRow() ==> r == Fail(NotOnRow)
      ensures rset != null && rset.ColumnCount() >= 1 && rset.OnRow() ==>
                r == Ok(RowObject(defaultRowObjectMapper, Columns(rset.labels, rset.rows[rset.position])))
    {
      r := CursorToJsonObjectWith(rset, defaultRowObjectMapper);
    }

    /** TOJSONARRAY(list, mapper): one object per row, element i being TOJSONOBJECT(list[i], mapper). */
    method RowsToJsonArrayWith(list: Option<seq<Row>>, mapper: Option<RowObjectMapper>)
      returns (r: Result<JsonArray, Error>)
      ensures list.None? ==> r == Fail(NullArgument("List<GroovyRowResult> was null"))
      ensures list.Some? ==> r.Ok? && |r.value| == |list.value|
      ensures list.Some? ==> forall j :: 0 <= j < |list.value| ==>
                r.value[j] == RowObject(EffectiveMapper(mapper, defaultRowObjectMapper), list.value[j])
    {
      if list.None? {
        return Fail(NullArgument("List<GroovyRowResult> was null"));
      }
      var rows := list.value;
      var m := if mapper.None? then defaultRowObjectMapper else mapper;
      var objects: JsonArray := [];
      for j := 0 to |rows|
        invariant |objects| == j
        invariant forall k :: 0 <= k < j ==> objects[k] == RowObject(m, rows[k])
      {
        var obj := RowToJsonObjectWith(Some(rows[j]), m);
        objects := objects + [obj.value];
      }
      r := Ok(objects);
    }

    /** TOJSONARRAY(list): the same with the default mapper. */
    method RowsToJsonArray(list: Option<seq<Row>>) returns (r: Result<JsonArray, Error>)
      ensures list.None? ==> r == Fail(NullArgument("List<GroovyRowResult> was null"))
      ensures list.Some? ==> r.Ok? && |r.value| == |list.value|
      ensures list.Some? ==> forall j :: 0 <= j < |list.value| ==>
                r.value[j] == RowObject(defaultRowObjectMapper, list.value[j])
    {
      r := RowsToJsonArrayWith(list, defaultRowObjectMapper);
    }

    /**
      TOJSONARRAY(rset, mapper): reads the labels once, then one object per row
      until next() reports no more, in cursor order; with no columns it returns
      an empty array and leaves the cursor where it was.
     */
    method CursorToJsonArrayWith(rset: ResultCursor?, mapper: Option<RowObjectMapper>)
      returns (r: Result<JsonArray, Error>)
      requires rset != null ==> rset.Valid()
      modifies rset
      ensures rset == null ==> r == Fail(NullArgument("GroovyResultSet was null"))
      ensures rset != null ==> rset.Valid()
      ensures rset != null && rset.ColumnCount() < 1 ==> r == Ok([]) && rset.position == old(rset.position)
      ensures rset != null && rset.ColumnCount() >= 1 ==>
                && rset.position == |rset.rows|
                && r.Ok? && |r.value| == |old(rset.Remaining())|
                && forall j :: 0 <= j < |r.value| ==>
                     r.value[j] == RowObject(EffectiveMapper(mapper, defaultRowObjectMapper),
                                             Columns(rset.labels, old(rset.Remaining())[j]))
    {
      if rset == null {
        return Fail(NullArgument("GroovyResultSet was null"));
      }
      var m := if mapper.None? then defaultRowObjectMapper else mapper;
      var objects: JsonArray := [];
      var cols := rset.ColumnCount();
      if cols < 1 {
        return Ok(objects);
      }
      var labs := ReadLabels(rset);
      r := DrainRows(rset, labs, m);
    }

    /** The labels loop of TOJSONARRAY(rset): labs[i - 1] is the label of column i. */
    method ReadLabels(rset: ResultCursor) returns (labs: array<string>)
      ensures fresh(labs)
      ensures labs[..] == rset.labels
    {
      labs := new string[rset.ColumnCount()];
      for i := 1 to labs.Length + 1
        invariant forall j :: 0 <= j < i - 1 ==> labs[j] == rset.labels[j]
      {
        labs[i - 1] := rset.ColumnLabel(i);
      }
    }

    /** The row loop of TOJSONARRAY(rset): `while (rset.next())` adds one object per row. */
    method DrainRows(rset: ResultCursor, labs: array<string>, m: Option<RowObjectMapper>)
      returns (r: Result<JsonArray, Error>)
      requires rset.Valid()
      requires labs[..] == rset.labels
      modifies rset`position
      ensures rset.Valid() && rset.position == |rset.rows|
      ensures r.Ok? && |r.value| == |old(rset.Remaining())|
      ensures forall j :: 0 <= j < |r.value| ==>
                r.value[j] == RowObject(m, Columns(rset.labels, old(rset.Remaining())[j]))
    {
      var objects: JsonArray := [];
      ghost var rem := rset.Remaining();
      var more := rset.Next();
      ghost var start := rset.position;
      assert rem == rset.rows[start..];
      while more
        invariant rset.Valid()
        invariant more == rset.OnRow()
        invariant 0 <= start <= |rset.rows|
        invariant rset.position == start + |objects|
        invariant forall j :: 0 <= j < |objects| ==>
                    objects[j] == RowObject(m, Columns(rset.labels, rset.rows[start + j]))
        decreases |rset.rows| - rset.position
      {
        var obj;
        obj, more := DrainStep(rset, labs, m);
        objects := objects + [obj];
      }
      assert rset.position == |rset.rows| && |objects| == |rem|;
      assert forall j :: 0 <= j < |objects| ==> rem[j] == rset.rows[start + j];
      r := Ok(objects);
    }

    /** One turn of that loop: transcribe the current row, then next(). */
    method DrainStep(rset: ResultCursor, labs: array<string>, m: Option<RowObjectMapper>)
      returns (obj: JsonObject, more: bool)
      requires rset.Valid() && rset.OnRow()
      requires labs[..] == rset.labels
      modifies rset`position
      ensures rset.Valid() && rset.position == old(rset.position) + 1 && more == rset.OnRow()
      ensures obj == RowObject(m, Columns(rset.labels, rset.rows[old(rset.position)]))
    {
      obj := TranscribeCurrentRow(rset, labs, m);
      more := rset.Next();
    }

    /** The body of TOJSONARRAY(rset)'s row loop: the current row transcribed under the labels read up front. */
    method TranscribeCurrentRow(rset: ResultCursor, labs: array<string>, m: Option<RowObjectMapper>)
      returns (obj: JsonObject)
      requires rset.Valid() && rset.OnRow()
      requires labs[..] == rset.labels
      ensures obj == RowObject(m, Columns(rset.labels, rset.rows[rset.position]))
    {
      ghost var row := Columns(rset.labels, rset.rows[rset.position]);
      obj := Empty();
      for i := 1 to labs.Length + 1
        invariant obj == TranscribeAll(m, Empty(), row[..i - 1])
      {
        var v := rset.GetObject(i);
        assert row[..i][..i - 1] == row[..i - 1];
        obj := Transcribe(m, obj, labs[i - 1], v.value);
      }
      assert row[..labs.Length] == row;
    }

    /** TOJSONARRAY(rset): the same with the default mapper. */
    method CursorToJsonArray(rset: ResultCursor?) returns (r: Result<JsonArray, Error>)
      requires rset != null ==> rset.Valid()
      modifies rset
      ensures rset == null ==> r == Fail(NullArgument("GroovyResultSet was null"))
      ensures rset != null ==> rset.Valid()
      ensures rset != null && rset.ColumnCount() < 1 ==> r == Ok([]) && rset.position == old(rset.position)
      ensures rset != null && rset.ColumnCount() >= 1 ==>
                && rset.position == |rset.rows|
                && r.Ok? && |r.value| == |old(rset.Remaining())|
                && forall j :: 0 <= j < |r.value| ==>
                     r.value[j] == RowObject(defaultRowObjectMapper, Columns(rset.labels, old(rset.Remaining())[j]))
    {
      r := CursorToJsonArrayWith(rset, defaultRowObjectMapper);
    }
  }
}
