/**
 * The `metadata` table of the record store (balthapp/model.py): one row per
 * uploaded document, keyed by its id, with column defaults filled in by the
 * store when a caller leaves a column out.
 */
module Model {
  import opened Wrappers

  /** Default of the `name`, `data` and `link` columns. */
  const DefaultValue: string := "default"
  /** Default of the `state` column. */
  const DefaultState: string := "PENDING"

  /** `created_at` as `str(...)` renders it; the store sets it when the row is inserted. */
  type Timestamp = string

  /** One committed row. Every column but `created_at` is non-null, so each is a plain string. */
  datatype PdfData = PdfData(
    id: string,
    name: string,
    data: string,
    link: string,
    state: string,
    createdAt: Timestamp)

  /** The keyword arguments of `PdfData(**data)`; `None` marks a column the caller left out. */
  datatype PdfFields = PdfFields(
    id: string,
    name: Option<string>,
    data: Option<string>,
    link: Option<string>,
    state: Option<string>)

  function ColumnValue(supplied: Option<string>, default: string): string
  {
    match supplied
    case Some(v) => v
    case None => default
  }

  /**
   * The row the store commits for `fields` at time `now`: every supplied
   * column is kept, every omitted one takes its column default, and
   * `created_at` comes from the store, never from the caller.
   */
  function NewRecord(fields: PdfFields, now: Timestamp): (r: PdfData)
    ensures r.id == fields.id && r.createdAt == now
    ensures fields.name.Some? ==> r.name == fields.name.value
    ensures fields.data.Some? ==> r.data == fields.data.value
    ensures fields.link.Some? ==> r.link == fields.link.value
    ensures fields.state.Some? ==> r.state == fields.state.value
    ensures fields.name.None? ==> r.name == DefaultValue
    ensures fields.data.None? ==> r.data == DefaultValue
    ensures fields.link.None? ==> r.link == DefaultValue
    ensures fields.state.None? ==> r.state == DefaultState
  {
    PdfData(
      fields.id,
      ColumnValue(fields.name, DefaultValue),
      ColumnValue(fields.data, DefaultValue),
      ColumnValue(fields.link, DefaultValue),
      ColumnValue(fields.state, DefaultState),
      now)
  }

  /**
   * `id` is the primary key: the table maps each id to at most one row, and
   * that row carries the id it is stored under.
   */
  ghost predicate WellKeyed(records: map<string, PdfData>)
  {
    forall k :: k in records ==> records[k].id == k
  }
}
