/** The table of configured backends, one row for each name. */
module BackendStore {
  import opened Wrappers
  import opened Text
  import opened Config

  const MILLISECOND := 1_000_000
  const DEFAULT_TIMEOUT_MS := 120_000

  /** One row as it is stored; the name is its key.  Headers are not stored. */
  datatype Row = Row(
    url: string,
    weight: int,
    timeoutMs: int,
    healthCheckPath: string,
    tag: Option<string>,
    active: bool)

  type Rows = map<string, Row>

  /** The row that is written for a backend. */
  function RowOf(b: Backend): Row {
    var ms := b.timeout / MILLISECOND;
    Row(b.url, Clamp(b.weight), if ms <= 0 then DEFAULT_TIMEOUT_MS else ms,
        if b.healthCheckPath == "" then DEFAULT_HEALTH_CHECK_PATH else b.healthCheckPath, Some(b.tag), true)
  }

  /** The backend that a row is read as. */
  function BackendOf(name: string, row: Row): Backend {
    Backend(name, row.url, Clamp(row.weight), row.tag.UnwrapOr(""), map[],
            (if row.timeoutMs <= 0 then DEFAULT_TIMEOUT_MS else row.timeoutMs) * MILLISECOND, row.healthCheckPath)
  }

  /** The row has what the backend is configured with, with defaults for what is not usable, and is active. */
  predicate Stores(row: Row, b: Backend) {
    && row.active && row.url == b.url && row.tag == Some(b.tag)
    && (b.weight >= 1 ==> row.weight == b.weight) && (b.weight < 1 ==> row.weight == DEFAULT_MODEL_WEIGHT)
    && (b.timeout >= MILLISECOND ==> 0 <= b.timeout - row.timeoutMs * MILLISECOND < MILLISECOND)
    && (b.timeout < MILLISECOND ==> row.timeoutMs == DEFAULT_TIMEOUT_MS)
    && (b.healthCheckPath != "" ==> row.healthCheckPath == b.healthCheckPath)
    && (b.healthCheckPath == "" ==> row.healthCheckPath == DEFAULT_HEALTH_CHECK_PATH)
  }

  /** The backend has what the row has, with defaults for what is not usable, and no headers. */
  predicate ReadFrom(b: Backend, name: string, row: Row) {
    && b.name == name && b.url == row.url && b.headers == map[] && b.healthCheckPath == row.healthCheckPath
    && (row.tag.Some? ==> b.tag == row.tag.value) && (row.tag.None? ==> b.tag == "")
    && (row.weight >= 1 ==> b.weight == row.weight) && (row.weight < 1 ==> b.weight == DEFAULT_MODEL_WEIGHT)
    && (row.timeoutMs >= 1 ==> b.timeout == row.timeoutMs * MILLISECOND)
    && (row.timeoutMs < 1 ==> b.timeout == DEFAULT_TIMEOUT_MS * MILLISECOND)
  }

  lemma RowOfStores(b: Backend)
    ensures Stores(RowOf(b), b)
  {
  }

  /** Whatever the row, the backend has its values and a usable weight and timeout. */
  lemma ReadIsUsable(name: string, row: Row)
    ensures var b := BackendOf(name, row);
      ReadFrom(b, name, row) && b.weight >= 1 && b.timeout >= MILLISECOND
  {
  }

  /** What is written and read again: defaults for what was not usable, milliseconds for the timeout, no headers. */
  lemma WrittenAndRead(b: Backend)
    ensures var r := BackendOf(b.name, RowOf(b));
      && r == b.(weight := Clamp(b.weight), timeout := r.timeout, healthCheckPath := r.healthCheckPath,
                 headers := map[])
      && r.timeout >= MILLISECOND && r.healthCheckPath != ""
      && (b.timeout >= MILLISECOND ==> r.timeout <= b.timeout < r.timeout + MILLISECOND)
      && (b.healthCheckPath != "" ==> r.healthCheckPath == b.healthCheckPath)
  {
  }

  /** The names of the active rows. */
  ghost function ActiveNames(rows: Rows): set<string> {
    set n | n in rows && rows[n].active
  }

  lemma UpsertActive(rows: Rows, b: Backend)
    ensures ActiveNames(rows[b.name := RowOf(b)]) == ActiveNames(rows) + {b.name}
  {
  }

  lemma RemoveActive(rows: Rows, name: string)
    ensures ActiveNames(rows - {name}) == ActiveNames(rows) - {name}
  {
  }

  lemma ListedNames(bs: seq<Backend>, names: seq<string>)
    requires |bs| == |names| && forall i :: 0 <= i < |bs| ==> bs[i].name == names[i]
    ensures forall n :: n in Names(bs) <==> n in names
  {
    forall n | n in names ensures n in Names(bs) {
      var i :| 0 <= i < |names| && names[i] == n;
      assert bs[i].name == n;
    }
  }

  class Store {
    var rows: Rows

    constructor ()
      ensures rows == map[]
    {
      rows := map[];
    }

    /** The active rows in ascending order of their names. */
    method LoadActiveBackends() returns (out: seq<Backend>)
      ensures |out| == |SortedOf(ActiveNames(rows))|
      ensures forall i :: 0 <= i < |out| ==>
        var n := SortedOf(ActiveNames(rows))[i];
        n in rows && out[i] == BackendOf(n, rows[n])
      ensures DistinctNames(out) && Names(out) == ActiveNames(rows)
      ensures forall i :: 0 <= i < |out| ==>
        out[i].name in rows && rows[out[i].name].active && ReadFrom(out[i], out[i].name, rows[out[i].name])
      ensures forall n :: n in rows && rows[n].active ==> n in Names(out)
      ensures forall i, j :: 0 <= i < j < |out| ==> AtMost(out[i].name, out[j].name)
    {
      hide SortedOf, AtMost;
      var names := SortedStrings(set n | n in rows && rows[n].active);
      assert forall i :: 0 <= i < |names| ==> names[i] in names;
      out := [];
      for i := 0 to |names|
        invariant |out| == i && forall j :: 0 <= j < i ==> out[j] == BackendOf(names[j], rows[names[j]])
      {
        var row := rows[names[i]];
        var weight, timeoutMs := row.weight, row.timeoutMs;
        if weight <= 0 {
          weight := DEFAULT_MODEL_WEIGHT;
        }
        if timeoutMs <= 0 {
          timeoutMs := DEFAULT_TIMEOUT_MS;
        }
        var backend := Backend(names[i], row.url, weight, "", map[], timeoutMs * MILLISECOND, row.healthCheckPath);
        if row.tag.Some? {
          backend := backend.(tag := row.tag.value);
        }
        out := out + [backend];
      }
      assert forall n :: n in ActiveNames(rows) <==> n in names;
      ListedNames(out, names);
    }

    /** Creates or replaces the row, which is active afterwards. */
    method UpsertBackend(b: Backend, committed: bool) returns (r: Outcome)
      modifies this
      ensures r.Pass? <==> committed
      ensures rows == if committed then old(rows)[b.name := RowOf(b)] else old(rows)
      ensures committed ==> Stores(rows[b.name], b)
    {
      RowOfStores(b);
      if !committed {
        return Fail("upsert backend");
      }
      rows := rows[b.name := RowOf(b)];
      return Pass;
    }

    /** Deletes the row, active or not; an unknown name is reported. */
    method RemoveBackend(name: string, committed: bool) returns (r: Outcome)
      modifies this
      ensures r.Pass? <==> committed && name in old(rows)
      ensures rows == if committed then old(rows) - {name} else old(rows)
    {
      if !committed {
        return Fail("remove backend");
      }
      if name !in rows {
        assert rows - {name} == rows;
        return Fail("backend not found");
      }
      rows := rows - {name};
      return Pass;
    }
  }
}
