# GlobalBan decision core in Dafny

A model of the ban decisions made by the Unturned plugin *Global Ban* (`GlobalBanPlugin.cs`). The plugin
hooks two host events:

- **the ban-status check** (`CheckBanned`), run on every connection. The ban repository classifies the
  player's Steam id, IP address and hardware id as an id match, an address match, a hardware-id match or
  none. On an id match the plugin reads the account's bans in effect, picks the one with the most time
  left, reports its reason and remaining time (capped at `uint.MaxValue`), and writes an escalation
  record binding the current address and hardware id to that remaining time unless some listed ban
  already has exactly that pair. On an address or hardware-id match the new account is banned
  permanently with a fixed "evading" reason.
- **the ban request** (`RequestBan`), issued by an admin or another plugin. The plugin records the ban
  itself (address and first hardware id only when the `commands:ban:ban_hwid_and_ip` setting is on),
  with the instigator as admin, the reason and duration unchanged, and always suppresses the vanilla ban.

Both hooks are pure functions here. What the repository answers (the match classification, the list of
bans in effect) and what the other collaborators answer (current server, online user, stored character
name) are inputs; the repository write is an output `Option<BanCall>` holding the arguments of
`BanPlayer`; the webhook is an output `Notice` holding the values handed to `SendWebhook`. Time is whole
seconds on a single clock `now`.

Modules: `Options` (optional values), `Widths` (integer widths), `Text` (.NET decimal `ToString()`, the
hardware-id byte join), `Bans` (records, remaining time, the `uint` clamp, host values), `GlobalBanPlugin` (the two
hooks), `BanProperties` (lemmas relating several calls and the two hooks).

A permanent ban (duration `uint.MaxValue`) gets no special case: the code computes
`timeOfBan + duration - now` for every ban and only caps it, so a permanent ban that started before
`now` reports less than `uint.MaxValue` (`BanProperties.StartedBansNeverReportPermanent`), and its
escalation records carry that finite duration.

How the repository stores a `BanPlayer` call is not part of this model; the lemmas that feed a written
record back into a later check use the helper `Bans.Recorded`, which assumes it stores the arguments
unchanged and stamps the record with the time of the call. `BanProperties.SameMembersSameEmptiness` is a
step of the proof of `BanProperties.ReportedRemainingIgnoresOrder`, not a model of its own.

## Model

| member | source | states |
|---|---|---|
| Text.Decimal | GlobalBanPlugin.cs:186 | the text an id's `ToString()` gives is non-empty, all decimal digits, with no leading zero |
| Text.ParseDecimalOfDecimal | GlobalBanPlugin.cs:186 | reading that text back through an independent digit parser gives the id |
| Text.DecimalInjective | GlobalBanPlugin.cs:186 | two ids with the same decimal text are the same id |
| Text.ByteDecimalLength | GlobalBanPlugin.cs:93 | every hardware-id byte is written with one to three digits |
| Text.JoinBytes | GlobalBanPlugin.cs:93 | the joined hardware id is all digits, between one and three characters per byte, empty exactly when there are no bytes |
| Text.JoinBytesAppend | GlobalBanPlugin.cs:173 | joining is a concatenation of the bytes' texts: joining two runs is joining each and appending |
| Text.JoinBytesCollides | GlobalBanPlugin.cs:93 | the separator-less join maps the distinct hardware ids [1, 23] and [12, 3] to the same text "123" |
| Bans.ClampToU32 | GlobalBanPlugin.cs:109-111 | the reported duration never exceeds the true remaining time nor `uint.MaxValue`, and equals the remaining time whenever it fits |
| GlobalBanPlugin.ControllingIndex | GlobalBanPlugin.cs:101-103 | the controlling ban has at least as much time left as every listed ban, and strictly more than every ban listed before it (stable descending order) |
| GlobalBanPlugin.CheckBanned | GlobalBanPlugin.cs:89-148 | id match: banned, reason of a controlling ban, its remaining time capped at `uint.MaxValue` and at least 1; an escalation record (current ip, joined hwid, that capped time, admin 0, new-ip-or-hwid reason) is written and announced iff no listed ban has both the current ip and hwid; empty list or no match: verdict untouched, nothing written; ip or hwid match: banned permanently with the evading reason and a permanent admin-0 record for the account, always |
| GlobalBanPlugin.RequestBan | GlobalBanPlugin.cs:150-202 | vanilla ban suppressed; reason and duration recorded and handed back unchanged with the instigator as admin; ip 0 and hwid empty when capture is off, else the given ip and the first hwid joined (empty when none given); display name falls back from online name to stored name to the id's text; the webhook names the id and the instigator |
| BanProperties.EscalationRecordInEffect | GlobalBanPlugin.cs:108-116 | the escalation record is in effect at the moment it is written |
| BanProperties.EscalationIsIdempotent | GlobalBanPlugin.cs:113-116 | once the escalation record is among the listed bans, any later id-match check from the same ip and hwid writes and announces nothing |
| BanProperties.RecheckAfterEscalationWritesNothing | GlobalBanPlugin.cs:113-116 | checking again against the list extended with the escalation record writes nothing |
| BanProperties.EscalationEndsWithControllingBan | GlobalBanPlugin.cs:101-116 | the escalation record ends no later than the controlling ban, exactly with it unless the cap applied, and no earlier than any ban whose remaining time fits in `uint` |
| BanProperties.ReportedRemainingIgnoresOrder | GlobalBanPlugin.cs:101-111 | the reported remaining time depends only on which bans are listed, not on their order |
| BanProperties.StartedBansNeverReportPermanent | GlobalBanPlugin.cs:108-111 | bans that started before now always report less than `uint.MaxValue`; a lone permanent ban reports `uint.MaxValue` minus its elapsed seconds |
| BanProperties.IssuedBanIsEnforced | GlobalBanPlugin.cs:190-191 | a ban recorded by the request hook, while it is the account's only ban in effect, makes the check report its reason and the rest of its duration |
| BanProperties.AccountOnlyBanEscalatesOnConnect | GlobalBanPlugin.cs:166-174 | with capture off, the banned account's first connection with a hardware id writes an escalation record for its current ip and hwid with the rest of the duration |
| BanProperties.CapturedBanCoversOwnDevice | GlobalBanPlugin.cs:169-174 | with capture on, a ban issued with the player's own ip and first hwid makes connections from that device escalate nothing |
| BanProperties.EvadingRecordCoversNewAccount | GlobalBanPlugin.cs:128-135 | the record an ip or hwid match writes is permanent and covers the new account's own ip and hwid, so its later id-match checks from that device are banned and escalate nothing |

## Left out

- Webhook building and sending (`SendWebhook`, `SendWebhookAsync`, `BuildFields`, lines 204-280): formatting and network I/O; only the values passed to `SendWebhook` are modelled (`Notice`), with the admin name as `Actor` instead of its localized text.
- Localized strings: the reasons are their localization keys, standing for opaque translated texts.
- Broadcasts and log lines (lines 118-121, 137-140, 195-197): output side effects only.
- Plugin lifecycle, event registration and the database migration (lines 67-87), and the `Provider.ban` call (line 193): host integration.
- Service resolution (`GetCurrentServer`, `FindUser`, `FindPlayer`): foreign calls; their results are optional inputs (`server`, `Lookups`).
- The repository's `CheckBan` classification and priority and `FindBansInEffect` filtering: their source is not part of this model, so the match type and the in-effect list are inputs; the list is required to be in effect at `now`.
- `DateTime` and `double` arithmetic: time is whole seconds, and the two readings of the clock (lines 99 and 108) are one `now`, so fractional seconds are not modelled.
- GlobalBanPlugin.CheckBanned: the repository filters bans in effect with its own reading of the clock, and line 108 reads it again after that query; a listed ban that ends in between is excluded by the in-effect precondition, and for it the code reports 0 (remaining time in (-1, 0]) or an unspecified `uint` (the out-of-range `(uint)` cast at line 110) where the model promises at least 1, and writes that value into the escalation record.
- GlobalBanPlugin.RequestBan: an empty `hwidsToBan` with capture on makes `.First()` throw (line 173); this is a precondition rather than a modelled exception.
- GlobalBanPlugin.RequestBan: a null `hwid` byte array inside the list, or a null stored character name, is not modelled.
- Bans.Recorded: how the repository stores a `BanPlayer` call (store timestamp, stored fields) is not part of this model; the function assumes the arguments are stored unchanged, stamped with the time of the call, and serves only as a helper of the lemmas.
- Atomicity of the check-then-insert across concurrent connections: concurrency is not modelled.
