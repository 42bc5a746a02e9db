/** Properties relating several calls of the two hooks, and the hooks to each other. */
module BanProperties {
  import opened Options
  import opened Widths
  import opened Text
  import opened Bans
  import opened GlobalBanPlugin

  /** The moment a record stops being in effect. */
  function End(b: BanRecord): (t: int) {
    b.timeOfBan + b.duration
  }

  /** The record an id-match escalation writes is itself in effect when it is written. */
  lemma EscalationRecordInEffect(
    player: SteamPlayerId, remoteIp: u32, current: Verdict, inEffect: seq<BanRecord>,
    server: Option<u64>, now: int)
    requires AllInEffect(inEffect, now)
    requires CheckBanned(player, remoteIp, current, Id, inEffect, server, now).write.Some?
    ensures InEffect(Recorded(CheckBanned(player, remoteIp, current, Id, inEffect, server, now).write.value, now), now)
  {
  }

  /**
   * Escalation is idempotent: once the escalation record is stored, any later id-match check
   * from the same address and hardware id, on a list of in-effect bans that includes it,
   * neither records nor announces anything.
   */
  lemma EscalationIsIdempotent(
    player: SteamPlayerId, remoteIp: u32, current: Verdict, inEffect: seq<BanRecord>,
    server: Option<u64>, now: int, current': Verdict, again: seq<BanRecord>, later: int)
    requires AllInEffect(inEffect, now)
    requires CheckBanned(player, remoteIp, current, Id, inEffect, server, now).write.Some?
    requires AllInEffect(again, later)
    requires Recorded(CheckBanned(player, remoteIp, current, Id, inEffect, server, now).write.value, now) in again
    ensures CheckBanned(player, remoteIp, current', Id, again, server, later).write == None
    ensures CheckBanned(player, remoteIp, current', Id, again, server, later).notice == None
  {
  }

  /** In particular, checking again at once against the store extended with the new record writes nothing. */
  lemma RecheckAfterEscalationWritesNothing(
    player: SteamPlayerId, remoteIp: u32, current: Verdict, inEffect: seq<BanRecord>,
    server: Option<u64>, now: int)
    requires AllInEffect(inEffect, now)
    requires CheckBanned(player, remoteIp, current, Id, inEffect, server, now).write.Some?
    ensures
      var r := CheckBanned(player, remoteIp, current, Id, inEffect, server, now);
      var again := inEffect + [Recorded(r.write.value, now)];
      AllInEffect(again, now) && CheckBanned(player, remoteIp, r.verdict, Id, again, server, now).write == None
  {
  }

  /**
   * An escalation record never outlasts the ban that caused it: it ends no later than the
   * controlling ban, and exactly with it unless the remaining time had to be capped.
   */
  lemma EscalationEndsWithControllingBan(
    player: SteamPlayerId, remoteIp: u32, current: Verdict, inEffect: seq<BanRecord>,
    server: Option<u64>, now: int)
    requires AllInEffect(inEffect, now)
    requires CheckBanned(player, remoteIp, current, Id, inEffect, server, now).write.Some?
    ensures
      var rec := Recorded(CheckBanned(player, remoteIp, current, Id, inEffect, server, now).write.value, now);
      && (forall i | 0 <= i < |inEffect| :: End(inEffect[i]) <= End(rec) || End(inEffect[i]) - now > MaxU32)
      && (exists k | 0 <= k < |inEffect| ::
            && IsControlling(inEffect, k, now)
            && End(rec) <= End(inEffect[k])
            && (Remaining(inEffect[k], now) <= MaxU32 ==> End(rec) == End(inEffect[k])))
  {
  }

  /** Two lists with the same members are empty together. */
  lemma SameMembersSameEmptiness(a: seq<BanRecord>, b: seq<BanRecord>)
    requires forall x :: x in a <==> x in b
    ensures |a| == 0 <==> |b| == 0
  {
    if |a| > 0 { assert a[0] in b; }
    if |b| > 0 { assert b[0] in a; }
  }

  /**
   * The reported remaining time depends only on which bans the repository lists, not on the
   * order it lists them in.
   */
  lemma ReportedRemainingIgnoresOrder(
    player: SteamPlayerId, remoteIp: u32, current: Verdict, a: seq<BanRecord>, b: seq<BanRecord>,
    server: Option<u64>, now: int)
    requires AllInEffect(a, now) && AllInEffect(b, now)
    requires forall x :: x in a <==> x in b
    ensures CheckBanned(player, remoteIp, current, Id, a, server, now).verdict.remaining
         == CheckBanned(player, remoteIp, current, Id, b, server, now).verdict.remaining
  {
    var ra := CheckBanned(player, remoteIp, current, Id, a, server, now);
    var rb := CheckBanned(player, remoteIp, current, Id, b, server, now);
    SameMembersSameEmptiness(a, b);
    if |a| > 0 {
      assert a[0] in b;
      var ka :| 0 <= ka < |a| && IsControlling(a, ka, now) && ra.verdict.remaining == ClampToU32(Remaining(a[ka], now));
      var kb :| 0 <= kb < |b| && IsControlling(b, kb, now) && rb.verdict.remaining == ClampToU32(Remaining(b[kb], now));
      assert a[ka] in b;
      assert b[kb] in a;
    }
  }

  /**
   * No special case for a permanent ban: a ban that started before `now` always reports less
   * than the permanent value, whatever its duration; a permanent one reports exactly the
   * seconds of its 0xFFFF_FFFF left.
   */
  lemma StartedBansNeverReportPermanent(
    player: SteamPlayerId, remoteIp: u32, current: Verdict, inEffect: seq<BanRecord>,
    server: Option<u64>, now: int)
    requires AllInEffect(inEffect, now) && |inEffect| > 0
    requires forall i | 0 <= i < |inEffect| :: inEffect[i].timeOfBan < now
    ensures CheckBanned(player, remoteIp, current, Id, inEffect, server, now).verdict.remaining < MaxU32
    ensures |inEffect| == 1 && inEffect[0].duration == MaxU32 ==>
      CheckBanned(player, remoteIp, current, Id, inEffect, server, now).verdict.remaining
        == MaxU32 - (now - inEffect[0].timeOfBan)
  {
  }

  /**
   * A ban issued through the request hook is enforced on a later connection of the banned
   * account: while it is the account's only ban in effect, the check reports its reason and
   * the rest of its duration.
   */
  lemma IssuedBanIsEnforced(
    req: BanRequest, captureIpAndHwid: bool, lookups: Lookups, issuedAt: int,
    player: SteamPlayerId, remoteIp: u32, current: Verdict, server: Option<u64>, now: int)
    requires captureIpAndHwid && req.hwidsToBan.Some? ==> |req.hwidsToBan.value| > 0
    requires player.steamId == req.playerToBan
    requires issuedAt <= now < issuedAt + req.duration
    ensures
      var rec := Recorded(RequestBan(req, captureIpAndHwid, lookups).call, issuedAt);
      && rec.playerId == player.steamId
      && AllInEffect([rec], now)
      && CheckBanned(player, remoteIp, current, Id, [rec], server, now).verdict
           == Verdict(true, req.reason, req.duration - (now - issuedAt))
  {
  }

  /**
   * With capture switched off the issued ban records neither address nor hardware id, so the
   * banned account's first connection from a device with a hardware id is escalated: a record
   * binding its current address and hardware id to the rest of the ban is written.
   */
  lemma AccountOnlyBanEscalatesOnConnect(
    req: BanRequest, lookups: Lookups, issuedAt: int,
    player: SteamPlayerId, remoteIp: u32, current: Verdict, server: Option<u64>, now: int)
    requires player.steamId == req.playerToBan
    requires |player.hwid| > 0
    requires issuedAt <= now < issuedAt + req.duration
    ensures
      var rec := Recorded(RequestBan(req, false, lookups).call, issuedAt);
      CheckBanned(player, remoteIp, current, Id, [rec], server, now).write
        == Some(BanCall(ServerId(server), req.playerToBan, remoteIp, JoinBytes(player.hwid),
                        req.duration - (now - issuedAt), 0, NewIpOrHwidReason))
  {
  }

  /**
   * With capture switched on, a ban issued with the player's own address and (first) hardware
   * id already covers that device: the player's connections from it escalate nothing.
   */
  lemma CapturedBanCoversOwnDevice(
    req: BanRequest, lookups: Lookups, issuedAt: int,
    player: SteamPlayerId, current: Verdict, server: Option<u64>, now: int)
    requires player.steamId == req.playerToBan
    requires req.hwidsToBan.Some? && |req.hwidsToBan.value| > 0 && req.hwidsToBan.value[0] == player.hwid
    requires issuedAt <= now < issuedAt + req.duration
    ensures
      var rec := Recorded(RequestBan(req, true, lookups).call, issuedAt);
      CheckBanned(player, req.ipToBan, current, Id, [rec], server, now).write == None
  {
  }

  /**
   * The permanent record an address or hardware-id match writes covers the new account's
   * own address and hardware id: once it is listed, the account's later id-match checks from
   * the same device report it banned and escalate nothing.
   */
  lemma EvadingRecordCoversNewAccount(
    player: SteamPlayerId, remoteIp: u32, current: Verdict, matched: MatchType,
    server: Option<u64>, now: int, current': Verdict, again: seq<BanRecord>, later: int)
    requires matched == Ip || matched == Hwid
    requires AllInEffect(again, later)
    requires Recorded(CheckBanned(player, remoteIp, current, matched, [], server, now).write.value, now) in again
    ensures Recorded(CheckBanned(player, remoteIp, current, matched, [], server, now).write.value, now).duration == MaxU32
    ensures CheckBanned(player, remoteIp, current', Id, again, server, later).verdict.isBanned
    ensures CheckBanned(player, remoteIp, current', Id, again, server, later).write == None
  {
  }
}
