/**
 * The per-guild prefix cache of IA/Events/EventSystem.cs (`identifier`):
 * lazily filled from the `identifier` table by `LoadIdentifier`, written
 * through by `SetIdentifierAsync`, read by `GetIdentifier`.
 */
module Prefixes {
  import opened Base
  import opened Store
  import opened State

  /**
   * `LoadIdentifier(server)`. With a store, the guild's row is read; a
   * missing row (the "ERROR" sentinel) is replaced by the default prefix in
   * the store and in the cache, a present row is cached as it is. Without a
   * store the default is cached and the store is not touched. The final
   * `identifier.Add` throws if the guild is already cached, after the store
   * requests have been made.
   */
  function LoadIdentifier(w: World, server: ulong): (r: (Status, World))
    requires Valid(w)
    ensures Valid(r.1)
    ensures r.1 == w.(identifier := r.1.identifier, store := r.1.store)
    ensures r.0 == Completed <==> server !in w.identifier
    ensures r.0 != Completed ==> r.0 == Threw(DuplicateKey) && r.1.identifier == w.identifier
    ensures r.0 == Completed ==> server in r.1.identifier && r.1.identifier == w.identifier[server := r.1.identifier[server]]
    ensures !w.store.configured ==> r.1.store == w.store
    ensures !w.store.configured && r.0 == Completed ==> r.1.identifier[server] == w.defaultIdentifier
    ensures w.store.configured ==>
      var row := ReadPrefixRow(w.store, server).0;
      if row == PrefixMissing then
        && r.1.store.prefixRows == w.store.prefixRows[server := w.defaultIdentifier]
        && r.1.store.log == w.store.log + [ReadPrefix(server), WritePrefix(server, w.defaultIdentifier)]
        && r.1.store.eventRows == w.store.eventRows && r.1.store.configured
        && (r.0 == Completed ==> r.1.identifier[server] == w.defaultIdentifier)
      else
        && r.1.store == w.store.(log := w.store.log + [ReadPrefix(server)])
        && (r.0 == Completed ==> r.1.identifier[server] == row)
  {
    if w.store.configured then
      var read := ReadPrefixRow(w.store, server);
      var store := if read.0 == PrefixMissing then WritePrefixRow(read.1, server, w.defaultIdentifier) else read.1;
      var prefix := if read.0 == PrefixMissing then w.defaultIdentifier else read.0;
      if server in w.identifier then (Threw(DuplicateKey), w.(store := store))
      else (Completed, w.(store := store, identifier := w.identifier[server := prefix]))
    else if server in w.identifier then (Threw(DuplicateKey), w)
    else (Completed, w.(identifier := w.identifier[server := w.defaultIdentifier]))
  }

  /**
   * `SetIdentifierAsync(guild, prefix)`: the cache takes the new prefix
   * whether or not the guild was cached, then an UPDATE is sent, which
   * changes the guild's row only if it has one.
   */
  function SetIdentifier(w: World, guild: ulong, prefix: string): (r: World)
    requires Valid(w)
    ensures Valid(r)
    ensures r == w.(identifier := r.identifier, store := r.store)
    ensures guild in r.identifier && r.identifier[guild] == prefix
    ensures forall g :: g != guild ==> (g in r.identifier <==> g in w.identifier)
    ensures forall g :: g in w.identifier && g != guild ==> r.identifier[g] == w.identifier[g]
    ensures r.store.log == w.store.log + [UpdatePrefix(guild, prefix)]
    ensures r.store.prefixRows.Keys == w.store.prefixRows.Keys
    ensures guild in w.store.prefixRows ==> r.store.prefixRows[guild] == prefix
    ensures forall g :: g in w.store.prefixRows && g != guild ==> r.store.prefixRows[g] == w.store.prefixRows[g]
    ensures r.store.eventRows == w.store.eventRows && r.store.configured == w.store.configured
  {
    w.(identifier := w.identifier[guild := prefix], store := UpdatePrefixRow(w.store, guild, prefix))
  }

  /**
   * `GetIdentifier(server_id)`: the cached prefix on a hit; on a miss the
   * store is read (giving "ERROR" when there is no row) and nothing is cached.
   */
  function GetIdentifier(w: World, server: ulong): (r: (string, World))
    ensures r.1 == w.(store := r.1.store)
    ensures server in w.identifier ==> r.0 == w.identifier[server] && r.1 == w
    ensures server !in w.identifier ==> r.0 == ReadPrefixRow(w.store, server).0
    ensures server !in w.identifier ==> r.1.store == w.store.(log := w.store.log + [ReadPrefix(server)])
  {
    if server in w.identifier then (w.identifier[server], w)
    else var read := ReadPrefixRow(w.store, server); (read.0, w.(store := read.1))
  }

  /**
   * Loading an unseen guild's prefix from a store without its row writes the
   * default exactly once; asking again afterwards answers from the cache
   * without any store request.
   */
  lemma LoadThenGet(w: World, server: ulong)
    requires Valid(w) && server !in w.identifier
    ensures var loaded := LoadIdentifier(w, server).1;
      GetIdentifier(loaded, server) == (loaded.identifier[server], loaded)
    ensures w.store.configured && server !in w.store.prefixRows ==>
      var loaded := LoadIdentifier(w, server).1;
      && GetIdentifier(loaded, server).0 == w.defaultIdentifier
      && loaded.store.log == w.store.log + [ReadPrefix(server), WritePrefix(server, w.defaultIdentifier)]
  {
  }

  /** After `SetIdentifierAsync` the guild's prefix is read back from the cache with no store request. */
  lemma SetThenGet(w: World, guild: ulong, prefix: string, other: ulong)
    requires Valid(w) && other != guild
    ensures GetIdentifier(SetIdentifier(w, guild, prefix), guild) == (prefix, SetIdentifier(w, guild, prefix))
    ensures GetIdentifier(SetIdentifier(w, guild, prefix), other).0 == GetIdentifier(w, other).0
  {
  }

  /** A stored prefix that reads "ERROR" is indistinguishable from a missing row and is overwritten by the default. */
  lemma ErrorPrefixOverwritten(w: World, server: ulong)
    requires Valid(w) && server !in w.identifier
    requires w.store.configured && server in w.store.prefixRows && w.store.prefixRows[server] == PrefixMissing
    ensures LoadIdentifier(w, server).1.identifier[server] == w.defaultIdentifier
    ensures LoadIdentifier(w, server).1.store.prefixRows[server] == w.defaultIdentifier
  {
  }
}
