/** The logger: an append-only sequence of messages. The C++ object is
    modelled as an immutable record holding its vector of strings, and each
    call to `log` as a step function from one record to the next.
 */
module Logger {

  /** The private vector `logs_` of the C++ class. */
  datatype State = State(logs: seq<string>)

  /** The text of a C string: the characters before its terminating NUL, so it
      contains no NUL character itself. */
  predicate IsCString(s: string) {
    '\0' !in s
  }

  /** A default-constructed logger holds no messages. */
  function Create(): (l: State)
    ensures |l.logs| == 0
  {
    State([])
  }

  /** `log(operation)`: appends the text of `operation` as one new entry,
      leaving the earlier entries in place. */
  function Log(l: State, operation: string): (l': State)
    requires IsCString(operation)
    ensures |l'.logs| == |l.logs| + 1
    ensures l.logs <= l'.logs
    ensures l'.logs[|l.logs|] == operation
  {
    State(l.logs + [operation])
  }

  /** `getLogs()`: the entries, from the first logged to the most recent. */
  function GetLogs(l: State): (logs: seq<string>)
    ensures |logs| == |l.logs|
    ensures forall i :: 0 <= i < |logs| ==> logs[i] == l.logs[i]
  {
    l.logs
  }

  /** The state after calling `log` on each message in turn. */
  function LogAll(l: State, operations: seq<string>): (l': State)
    requires forall i :: 0 <= i < |operations| ==> IsCString(operations[i])
    ensures l'.logs == l.logs + operations
    decreases |operations|
  {
    if |operations| == 0 then l
    else LogAll(Log(l, operations[0]), operations[1..])
  }

  /** After any trace of `log` calls on a fresh logger, `getLogs()` returns
      exactly the logged messages in the order they were logged. */
  lemma GetLogsInInsertionOrder(operations: seq<string>)
    requires forall i :: 0 <= i < |operations| ==> IsCString(operations[i])
    ensures GetLogs(LogAll(Create(), operations)) == operations
  {
  }

  /** After `log(m)` the log is non-empty and its last entry is `m`. */
  lemma LastEntryIsLatest(l: State, operation: string)
    requires IsCString(operation)
    ensures |GetLogs(Log(l, operation))| > 0
    ensures GetLogs(Log(l, operation))[|GetLogs(Log(l, operation))| - 1] == operation
  {
  }

  /** There is no deduplication: logging a message twice adds two entries. */
  lemma NoDeduplication(l: State, operation: string)
    requires IsCString(operation)
    ensures GetLogs(Log(Log(l, operation), operation)) == GetLogs(l) + [operation, operation]
  {
    var l2 := Log(Log(l, operation), operation);
    assert l2.logs == l.logs + [operation] + [operation];
  }
}
