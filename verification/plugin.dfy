/**
 * The two hooks the plugin registers with the game host: the ban-status check run on every
 * connection, and the ban request issued by an admin or another plugin. Each is a pure
 * function from what the host and the repository supply to what the hook reports back and
 * what it asks the repository to record.
 */
module GlobalBanPlugin {
  import opened Options
  import opened Widths
  import opened Text
  import opened Bans

  /** Localization keys of the fixed reasons, standing for their translated texts. */
  const NewIpOrHwidReason: string := "internal:new_ip_or_hwid_ban_reason"
  const EvadingReason: string := "internal:ban_evading_reason"

  /** The identity of a connecting player as the host reports it. */
  datatype SteamPlayerId = SteamPlayerId(steamId: u64, hwid: seq<u8>, characterName: string)

  /** What the connection check reports to the host, asks the repository to record, and announces. */
  datatype CheckOutcome = CheckOutcome(verdict: Verdict, write: Option<BanCall>, notice: Option<Notice>)

  /** `server?.Id ?? 0`: the current server's id from the player-info library, 0 when it has none. */
  function ServerId(server: Option<u64>): (id: u64) {
    server.GetOr(0)
  }

  /**
   * Ban `k` controls the verdict: it has the most time left, and no ban listed before it has
   * as much (the descending sort is stable, so the first of equals comes out on top).
   */
  predicate IsControlling(bans: seq<BanRecord>, k: nat, now: int)
    requires k < |bans|
  {
    && (forall j | 0 <= j < |bans| :: Remaining(bans[j], now) <= Remaining(bans[k], now))
    && (forall j | 0 <= j < k :: Remaining(bans[j], now) < Remaining(bans[k], now))
  }

  /** The head of the in-effect bans after ordering them by remaining time, largest first. */
  function ControllingIndex(bans: seq<BanRecord>, now: int): (k: nat)
    requires |bans| > 0
    ensures k < |bans|
    ensures IsControlling(bans, k, now)
  {
    if |bans| == 1 then 0
    else
      var k := ControllingIndex(bans[..|bans| - 1], now);
      assert forall j | 0 <= j < |bans| - 1 :: bans[..|bans| - 1][j] == bans[j];
      if Remaining(bans[|bans| - 1], now) > Remaining(bans[k], now) then |bans| - 1 else k
  }

  /** Some listed ban already records exactly this address together with this hardware id. */
  predicate CoversPair(bans: seq<BanRecord>, ip: u32, hwid: string) {
    exists i | 0 <= i < |bans| :: bans[i].hwid == hwid && bans[i].ip == ip
  }

  /**
   * The ban-status hook. `matched` is the repository's classification of the player's
   * id, address and hardware id; `inEffect` is the repository's list of the account's bans in
   * effect at `now`, read only on an id match; `current` are the values the host passed in.
   */
  function CheckBanned(
    player: SteamPlayerId, remoteIp: u32, current: Verdict, matched: MatchType,
    inEffect: seq<BanRecord>, server: Option<u64>, now: int): (r: CheckOutcome)
    requires matched == Id ==> AllInEffect(inEffect, now)
    // an id match reports the controlling ban, its remaining time capped at uint.MaxValue
    ensures matched == Id && |inEffect| > 0 ==>
      && r.verdict.isBanned
      && (forall i | 0 <= i < |inEffect| ::
            ClampToU32(Remaining(inEffect[i], now)) <= r.verdict.remaining)
      && (exists k | 0 <= k < |inEffect| ::
            && IsControlling(inEffect, k, now)
            && r.verdict.reason == inEffect[k].reason
            && r.verdict.remaining == ClampToU32(Remaining(inEffect[k], now)))
    ensures matched == Id && |inEffect| > 0 ==> 1 <= r.verdict.remaining
    // an id match records the current address and hardware id unless a listed ban has both
    ensures matched == Id && |inEffect| > 0 ==>
      (r.write.Some? <==> !CoversPair(inEffect, remoteIp, JoinBytes(player.hwid)))
    ensures matched == Id && r.write.Some? ==>
      && r.write.value == BanCall(ServerId(server), player.steamId, remoteIp, JoinBytes(player.hwid),
                                  r.verdict.remaining, 0, NewIpOrHwidReason)
      && r.notice == Some(Notice(BanEvading, player.characterName, EvadingSystem, r.verdict.reason,
                                 Decimal(player.steamId), r.verdict.remaining))
    // an address or hardware-id match bans the account permanently, unconditionally
    ensures matched in {Ip, Hwid} ==>
      && r.verdict == Verdict(true, EvadingReason, MaxU32)
      && r.write == Some(BanCall(ServerId(server), player.steamId, remoteIp, JoinBytes(player.hwid),
                                 MaxU32, 0, EvadingReason))
      && r.notice == Some(Notice(BanEvading, player.characterName, EvadingSystem, EvadingReason,
                                 Decimal(player.steamId), MaxU32))
    // nothing is reported, recorded or announced otherwise
    ensures (matched == Id && |inEffect| == 0) || matched == Unmatched ==>
      r == CheckOutcome(current, None, None)
    ensures r.notice.Some? <==> r.write.Some?
  {
    var hwid := JoinBytes(player.hwid);
    match matched
    case Id =>
      if |inEffect| == 0 then CheckOutcome(current, None, None)
      else
        var ban := inEffect[ControllingIndex(inEffect, now)];
        var verdict := Verdict(true, ban.reason, ClampToU32(Remaining(ban, now)));
        if CoversPair(inEffect, remoteIp, hwid) then CheckOutcome(verdict, None, None)
        else
          CheckOutcome(
            verdict,
            Some(BanCall(ServerId(server), player.steamId, remoteIp, hwid, verdict.remaining, 0, NewIpOrHwidReason)),
            Some(Notice(BanEvading, player.characterName, EvadingSystem, verdict.reason,
                        Decimal(player.steamId), verdict.remaining)))
    case Ip | Hwid =>
      CheckOutcome(
        Verdict(true, EvadingReason, MaxU32),
        Some(BanCall(ServerId(server), player.steamId, remoteIp, hwid, MaxU32, 0, EvadingReason)),
        Some(Notice(BanEvading, player.characterName, EvadingSystem, EvadingReason,
                    Decimal(player.steamId), MaxU32)))
    case Unmatched => CheckOutcome(current, None, None)
  }

  /** A ban request as the host forwards it; `hwidsToBan` is `None` when the host passed null. */
  datatype BanRequest = BanRequest(
    instigator: u64,
    playerToBan: u64,
    ipToBan: u32,
    hwidsToBan: Option<seq<seq<u8>>>,
    reason: string,
    duration: u32)

  /**
   * What the plugin's collaborators answer about the target: the display name of the player
   * if online, the character name the player-info library stored, and the current server.
   */
  datatype Lookups = Lookups(onlineName: Option<string>, storedName: Option<string>, server: Option<u64>)

  /** What the ban-request hook records, hands back through its by-reference arguments, and announces. */
  datatype RequestOutcome = RequestOutcome(
    call: BanCall,
    shouldVanillaBan: bool,
    reason: string,
    duration: u32,
    displayName: string,
    notice: Notice)

  /**
   * The ban-request hook. `captureIpAndHwid` is the `commands:ban:ban_hwid_and_ip` setting.
   * Only the first hardware id offered is recorded.
   */
  function RequestBan(req: BanRequest, captureIpAndHwid: bool, lookups: Lookups): (r: RequestOutcome)
    requires captureIpAndHwid && req.hwidsToBan.Some? ==> |req.hwidsToBan.value| > 0
    // the vanilla ban is always suppressed; reason and duration go through untouched
    ensures !r.shouldVanillaBan && r.reason == req.reason && r.duration == req.duration
    ensures r.call.playerId == req.playerToBan && r.call.adminId == req.instigator
    ensures r.call.reason == req.reason && r.call.duration == req.duration
    ensures r.call.serverId == ServerId(lookups.server)
    // address and hardware id are recorded only when the setting asks for them
    ensures !captureIpAndHwid ==> r.call.ip == 0 && r.call.hwid == ""
    ensures captureIpAndHwid ==> r.call.ip == req.ipToBan
    ensures captureIpAndHwid && req.hwidsToBan.None? ==> r.call.hwid == ""
    ensures captureIpAndHwid && req.hwidsToBan.Some? ==> r.call.hwid == JoinBytes(req.hwidsToBan.value[0])
    // the announced name falls back from the online name to the stored name to the id
    ensures lookups.onlineName.Some? ==> r.displayName == lookups.onlineName.value
    ensures lookups.onlineName.None? && lookups.storedName.Some? ==> r.displayName == lookups.storedName.value
    ensures lookups.onlineName.None? && lookups.storedName.None? ==> r.displayName == Decimal(req.playerToBan)
    ensures r.notice == Notice(Ban, Decimal(req.playerToBan), External(req.instigator), req.reason,
                               Decimal(req.playerToBan), req.duration)
  {
    var ip: u32 := if captureIpAndHwid then req.ipToBan else 0;
    var hwid :=
      if captureIpAndHwid && req.hwidsToBan.Some? then JoinBytes(req.hwidsToBan.value[0]) else "";
    var name :=
      match lookups.onlineName
      case Some(n) => n
      case None => lookups.storedName.GetOr(Decimal(req.playerToBan));
    var call := BanCall(ServerId(lookups.server), req.playerToBan, ip, hwid, req.duration, req.instigator, req.reason);
    RequestOutcome(call, false, req.reason, req.duration, name,
                   Notice(Ban, Decimal(req.playerToBan), External(req.instigator), req.reason,
                          Decimal(req.playerToBan), req.duration))
  }
}
