/**
 * The relational store behind the two caches, as an abstract value: the
 * `event(name, id, enabled)` and `identifier(id, i)` tables as maps, whether a
 * store is configured at all (`bot.SqlInformation != null`), and a log of
 * every request sent to it, so that cache hits can be shown not to touch it.
 * The SQL text and the driver are not modelled; the bodies of
 * `sql.IsEventEnabled`, `sql.GetIdentifier` and `sql.SetIdentifier` are not
 * part of this model and are given their evident meaning here.
 */
module Store {
  import opened Base

  datatype StoreOp =
    | ReadEvent(name: string, id: ulong)
    | InsertEvent(name: string, id: ulong, enabled: bool)
    | UpdateEvent(name: string, id: ulong, enabled: bool)
    | ReadPrefix(id: ulong)
    | WritePrefix(id: ulong, prefix: string)
    | UpdatePrefix(id: ulong, prefix: string)

  datatype Store = Store(
    configured: bool,
    eventRows: map<(string, ulong), bool>,
    prefixRows: map<ulong, string>,
    log: seq<StoreOp>)

  /** An unconfigured store holds no rows. */
  ghost predicate Consistent(s: Store) {
    !s.configured ==> s.eventRows == map[] && s.prefixRows == map[]
  }

  /** `sql.IsEventEnabled`: -1 when no row exists, otherwise 1 or 0. */
  function ReadEnabled(s: Store, name: string, id: ulong): (r: (int, Store))
    ensures r.0 == -1 <==> (name, id) !in s.eventRows
    ensures r.0 != -1 ==> (r.0 == 1 <==> s.eventRows[(name, id)])
    ensures r.0 in {-1, 0, 1}
    ensures r.1 == s.(log := s.log + [ReadEvent(name, id)])
  {
    var state := if (name, id) !in s.eventRows then -1 else if s.eventRows[(name, id)] then 1 else 0;
    (state, s.(log := s.log + [ReadEvent(name, id)]))
  }

  /** `INSERT INTO event(name, id, enabled)`. */
  function InsertEnabled(s: Store, name: string, id: ulong, enabled: bool): Store {
    s.(eventRows := s.eventRows[(name, id) := enabled], log := s.log + [InsertEvent(name, id, enabled)])
  }

  /** `UPDATE event SET enabled ... WHERE id AND name`: only an existing row changes. */
  function UpdateEnabled(s: Store, name: string, id: ulong, enabled: bool): (r: Store)
    ensures r.eventRows.Keys == s.eventRows.Keys
    ensures (name, id) in s.eventRows ==> r.eventRows[(name, id)] == enabled
    ensures forall k :: k in s.eventRows && k != (name, id) ==> r.eventRows[k] == s.eventRows[k]
    ensures r.log == s.log + [UpdateEvent(name, id, enabled)]
    ensures r.prefixRows == s.prefixRows && r.configured == s.configured
  {
    var rows := if (name, id) in s.eventRows then s.eventRows[(name, id) := enabled] else s.eventRows;
    s.(eventRows := rows, log := s.log + [UpdateEvent(name, id, enabled)])
  }

  /** The sentinel `sql.GetIdentifier` returns when a guild has no row. */
  const PrefixMissing: string := "ERROR"

  /** `sql.GetIdentifier`: the stored prefix, or "ERROR" when there is no row. */
  function ReadPrefixRow(s: Store, id: ulong): (r: (string, Store))
    ensures id in s.prefixRows ==> r.0 == s.prefixRows[id]
    ensures id !in s.prefixRows ==> r.0 == PrefixMissing
    ensures r.1 == s.(log := s.log + [ReadPrefix(id)])
  {
    (if id in s.prefixRows then s.prefixRows[id] else PrefixMissing, s.(log := s.log + [ReadPrefix(id)]))
  }

  /** `sql.SetIdentifier`: stores the guild's prefix row. */
  function WritePrefixRow(s: Store, id: ulong, prefix: string): Store {
    s.(prefixRows := s.prefixRows[id := prefix], log := s.log + [WritePrefix(id, prefix)])
  }

  /** `UPDATE identifier SET i ... WHERE id`: only an existing row changes. */
  function UpdatePrefixRow(s: Store, id: ulong, prefix: string): (r: Store)
    ensures r.prefixRows.Keys == s.prefixRows.Keys
    ensures forall g :: g in s.prefixRows && g != id ==> r.prefixRows[g] == s.prefixRows[g]
    ensures id in s.prefixRows ==> r.prefixRows[id] == prefix
    ensures r.log == s.log + [UpdatePrefix(id, prefix)]
    ensures r.eventRows == s.eventRows && r.configured == s.configured
  {
    var rows := if id in s.prefixRows then s.prefixRows[id := prefix] else s.prefixRows;
    s.(prefixRows := rows, log := s.log + [UpdatePrefix(id, prefix)])
  }
}
