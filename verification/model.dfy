/**
 The `files` table: one row per stored file, keyed by its id, and the facts about it
 that the operations keep.
 */
module FileModel {
  import opened Exceptions

  /** The number of distinct 128-bit GUIDs. */
  const GuidCount: nat := 0x1_0000_0000_0000_0000_0000_0000_0000_0000

  /** A file id, a 128-bit GUID read as an unsigned number. */
  type Guid = n: nat | n < GuidCount

  /** A C# nullable value (`Guid?`, `string?`). */
  datatype Option<+T> = None | Some(value: T)

  /** The non-key columns of a row of `files`. */
  datatype Row = Row(hash: string, absolutePath: string, name: string, linksCount: int)

  /** A row together with its id, as the repository hands it out. */
  datatype FileSummary = FileSummary(id: Guid, hash: string, absolutePath: string, name: string, linksCount: int)
  {
    function ToRow(): Row {
      Row(hash, absolutePath, name, linksCount)
    }
  }

  /** The `files` table, keyed by id (its primary key). */
  type Table = map<Guid, Row>

  /** One atomic step on the table: what the call returned or threw, and the table after it. */
  datatype Transition<+T> = Transition(outcome: Outcome<T>, table: Table)

  /** The table invariant: no row holds a negative reference count. */
  predicate NonNegativeCounts(t: Table) {
    forall id | id in t :: t[id].linksCount >= 0
  }

  /** No two rows share a hash (the unique index on `hash`). */
  predicate HashesUnique(t: Table) {
    forall a, b | a in t && b in t && t[a].hash == t[b].hash :: a == b
  }

  /** The ids of the rows whose hash is `hash`. */
  function IdsWithHash(t: Table, hash: string): set<Guid> {
    set id | id in t && t[id].hash == hash
  }

  /** `t'` is `t` with the count of row `id` moved by `delta`; every other row, and every
      other column of row `id`, is unchanged. */
  predicate CountShifted(t: Table, t': Table, id: Guid, delta: int) {
    && id in t
    && t'.Keys == t.Keys
    && t'[id].hash == t[id].hash
    && t'[id].absolutePath == t[id].absolutePath
    && t'[id].name == t[id].name
    && t'[id].linksCount == t[id].linksCount + delta
    && forall k | k in t && k != id :: t'[k] == t[k]
  }

  /** `t'` is `t` without row `id`, every other row unchanged. */
  predicate RowRemoved(t: Table, t': Table, id: Guid) {
    && t'.Keys == t.Keys - {id}
    && forall k | k in t' :: t'[k] == t[k]
  }

  /** `t'` is `t` with one more row, `id` holding `row`, every other row unchanged. */
  predicate RowAdded(t: Table, t': Table, id: Guid, row: Row) {
    && t'.Keys == t.Keys + {id}
    && t'[id] == row
    && forall k | k in t :: t'[k] == t[k]
  }

  /** .NET's `char.IsWhiteSpace`: the Unicode space, line and paragraph separators plus
      the control characters U+0009 to U+000D and U+0085. */
  predicate IsWhiteSpace(c: char) {
    || '\U{0009}' <= c <= '\U{000D}'
    || c == '\U{0020}'
    || c == '\U{0085}'
    || c == '\U{00A0}'
    || c == '\U{1680}'
    || '\U{2000}' <= c <= '\U{200A}'
    || c == '\U{2028}'
    || c == '\U{2029}'
    || c == '\U{202F}'
    || c == '\U{205F}'
    || c == '\U{3000}'
  }

  /** .NET's `string.IsNullOrWhiteSpace` on a nullable string. */
  predicate IsNullOrWhiteSpace(s: Option<string>) {
    s.None? || forall i | 0 <= i < |s.value| :: IsWhiteSpace(s.value[i])
  }
}
