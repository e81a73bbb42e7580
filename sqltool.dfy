/** The shape of what `SQLiteTool.execute_sql` returns. The tool itself (a thin
    wrapper over sqlite3) is an oracle of the agent; only the shape of its
    result and the way the agent reads that result are modelled here. */
module SqlTool {
  import opened Maybe

  /** A value SQLite can store. */
  datatype SqlValue = SqlNull | SqlInteger(i: int) | SqlReal(r: real) | SqlText(s: string) | SqlBlob(bytes: seq<bv8>)

  /** One result row, as the tool builds it: column name to value. */
  type Row = map<string, SqlValue>

  /** `sql_result` in the agent state: `{}` before any execution, then the
      tool's `{columns, rows, error}` dictionary. */
  datatype SqlResult = NoResult | Executed(columns: seq<string>, rows: seq<Row>, error: Option<string>)

  /** What the tool can return: when `error` is set, `columns` and `rows` are empty. */
  type ExecResult = r: SqlResult | r.Executed? && (r.error.Some? ==> r.columns == [] && r.rows == [])
    witness Executed([], [], None)

  /** Python truthiness of `sql_result.get("error")`: present and not the empty string. */
  predicate HasError(r: SqlResult) {
    r.Executed? && r.error.Some? && r.error.value != ""
  }

  /** Python truthiness of `sql_result.get("rows")`. */
  predicate HasRows(r: SqlResult) {
    r.Executed? && r.rows != []
  }

  /** `f"{sql_result.get('error', '')}"`: empty for `{}`, "None" for a success. */
  function ErrorText(r: SqlResult): string {
    match r
    case NoResult => ""
    case Executed(_, _, None) => "None"
    case Executed(_, _, Some(e)) => e
  }

  /** `len(result.get("rows", []))`. */
  function RowCount(r: SqlResult): nat {
    if r.Executed? then |r.rows| else 0
  }
}
