/**
  The ban table behind `isIpBanned` and `banIp`: one row per banned address,
  holding the time its ban ends (`banned_until`), in milliseconds. The
  routes only reach it through oracles; this module says what those oracles
  answer when they read and write the same table.
*/
module BanStore {
  import opened Common

  /** The `banned_ips` table: address to the end of its ban. */
  type Table = map<string, int>

  const HourMillis: int := 60 * 60 * 1000

  /** `isIpBanned` at time `now`: the address has a row whose ban ends later. */
  predicate IsBanned(table: Table, ip: string, now: int) {
    ip in table && table[ip] > now
  }

  /** `banIp(ip, hours)` at time `now`: inserts the row, or replaces the one
      already there (`ON CONFLICT (ip) DO UPDATE`). */
  function Ban(table: Table, ip: string, hours: int, now: int): (table': Table)
    ensures table'.Keys == table.Keys + {ip}
    ensures table'[ip] == now + hours * HourMillis
    ensures forall a :: a in table && a != ip ==> table'[a] == table[a]
  {
    table[ip := now + hours * HourMillis]
  }

  /** The lookup the routes are handed when the table answers every query. */
  function Lookup(table: Table, now: int): string -> Option<bool> {
    a => Some(IsBanned(table, a, now))
  }

  /** A ban holds from the moment it is recorded until `hours` later ... */
  lemma BanHolds(table: Table, ip: string, hours: int, now: int, t: int)
    requires now <= t < now + hours * HourMillis
    ensures IsBanned(Ban(table, ip, hours, now), ip, t)
  {
  }

  /** ... and no longer, whatever the table held before. */
  lemma BanExpires(table: Table, ip: string, hours: int, now: int, t: int)
    requires now + hours * HourMillis <= t
    ensures !IsBanned(Ban(table, ip, hours, now), ip, t)
  {
  }

  /** Banning one address leaves every other address as it was. */
  lemma BanLeavesOthers(table: Table, ip: string, hours: int, now: int, a: string, t: int)
    requires a != ip
    ensures IsBanned(Ban(table, ip, hours, now), a, t) == IsBanned(table, a, t)
  {
  }
}
