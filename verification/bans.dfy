/** The records the ban repository keeps and the values the plugin exchanges with its host. */
module Bans {
  import opened Widths
  import opened Text

  /**
   * A stored ban. Time is whole seconds on one clock; `duration` is in seconds and
   * `0xFFFF_FFFF` is the value the plugin writes for a permanent ban. An `adminId`
   * of 0 marks a record the plugin wrote on its own.
   */
  datatype BanRecord = BanRecord(
    serverId: u64,
    playerId: u64,
    ip: u32,
    hwid: string,
    timeOfBan: int,
    duration: u32,
    reason: string,
    adminId: u64)

  /** The arguments of one `BanPlayer` call on the repository: a record still to be stamped with its time. */
  datatype BanCall = BanCall(
    serverId: u64,
    playerId: u64,
    ip: u32,
    hwid: string,
    duration: u32,
    adminId: u64,
    reason: string)

  /** Seconds from `now` to the end of `b`: `timeOfBan + duration - now`, with no special case for a permanent ban. */
  function Remaining(b: BanRecord, now: int): (r: int) {
    b.timeOfBan + b.duration - now
  }

  predicate InEffect(b: BanRecord, now: int) {
    Remaining(b, now) > 0
  }

  predicate AllInEffect(bans: seq<BanRecord>, now: int) {
    forall i | 0 <= i < |bans| :: InEffect(bans[i], now)
  }

  /** `(uint) Math.Min(uint.MaxValue, x)` for a non-negative whole number of seconds. */
  function ClampToU32(x: int): (r: u32)
    requires x >= 0
    ensures r <= x
    ensures x <= MaxU32 ==> r == x
    ensures x > MaxU32 ==> r == MaxU32
  {
    if x <= MaxU32 then x else MaxU32
  }

  /** The record the repository holds after `call` is made at time `at`. */
  function Recorded(call: BanCall, at: int): (b: BanRecord)
    ensures b.timeOfBan == at
    ensures Remaining(b, at) == call.duration
  {
    BanRecord(call.serverId, call.playerId, call.ip, call.hwid, at, call.duration, call.reason, call.adminId)
  }

  /** The three values the host passes by reference to the ban-status hook. */
  datatype Verdict = Verdict(isBanned: bool, reason: string, remaining: u32)

  /** The repository's classification of a connecting player (`BanType`); `Unmatched` stands for every other value. */
  datatype MatchType = Id | Ip | Hwid | Unmatched

  datatype WebhookType = Ban | BanEvading

  /** Who a webhook names as the banning party. */
  datatype Actor = EvadingSystem | External(id: u64)

  /** The values handed to `SendWebhook`: what is announced, not how it is formatted or delivered. */
  datatype Notice = Notice(
    kind: WebhookType,
    playerName: string,
    admin: Actor,
    reason: string,
    playerId: string,
    duration: u32)
}
