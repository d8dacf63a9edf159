/**
  The ban-check route (`GET /api/check-ban`): it looks the client address up
  in the ban store and echoes that address with the answer. The lookup is the
  oracle `isIpBanned`, answering `None` when it throws.
*/
module CheckBan {
  import opened Common
  import ClientIp
  import BanStore
  import VerifyPassword

  datatype Response =
    | BanStatus(banned: bool, ip: string)  // { banned, ip }, 200
    | Failed                               // { error }, 500

  /** `GET`. */
  function Get(forwarded: Option<string>, realIp: Option<string>, isIpBanned: string -> Option<bool>): (r: Response)
    ensures r.Failed? <==> isIpBanned(ClientIp.GetClientIp(forwarded, realIp)).None?
    ensures r.BanStatus? ==> r.ip == ClientIp.GetClientIp(forwarded, realIp) && isIpBanned(r.ip) == Some(r.banned)
  {
    var ip := ClientIp.GetClientIp(forwarded, realIp);
    match isIpBanned(ip)
    case None => Failed
    case Some(banned) => BanStatus(banned, ip)
  }

  /** A ban the password route records is the ban this route reports.
      `Post` hands `banIp` the address `GetClientIp` computes and 24 hours;
      with both oracles reading and writing the same table, a request
      carrying the same headers within those 24 hours is told it is banned,
      together with that address. */
  lemma SameClientAsPasswordRoute(
    forwarded: Option<string>, realIp: Option<string>,
    table: BanStore.Table, bannedAt: int, t: int)
    requires bannedAt <= t < bannedAt + VerifyPassword.BanHours * BanStore.HourMillis
    ensures var ip := ClientIp.GetClientIp(forwarded, realIp);
            var table' := BanStore.Ban(table, ip, VerifyPassword.BanHours, bannedAt);
            Get(forwarded, realIp, BanStore.Lookup(table', t)) == BanStatus(true, ip)
  {
    var ip := ClientIp.GetClientIp(forwarded, realIp);
    BanStore.BanHolds(table, ip, VerifyPassword.BanHours, bannedAt, t);
  }

  /** A ban on one client changes nothing for a request from another. */
  lemma OtherClientsUnaffected(
    forwarded: Option<string>, realIp: Option<string>,
    table: BanStore.Table, banned: string, bannedAt: int, t: int)
    requires ClientIp.GetClientIp(forwarded, realIp) != banned
    ensures var table' := BanStore.Ban(table, banned, VerifyPassword.BanHours, bannedAt);
            Get(forwarded, realIp, BanStore.Lookup(table', t)) == Get(forwarded, realIp, BanStore.Lookup(table, t))
  {
    BanStore.BanLeavesOthers(table, banned, VerifyPassword.BanHours, bannedAt, ClientIp.GetClientIp(forwarded, realIp), t);
  }
}
