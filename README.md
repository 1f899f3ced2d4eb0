# hytale-aws: the deterministic parts of the deployment, in Dafny

The repository deploys a single Hytale game server on AWS with CDK. Most of it is declarative
stack wiring. This project models the four parts of it whose behaviour can be stated on its own,
and proves properties of them:

- **Boolean context flags** (`lib/server/config.ts`). `getBooleanContext` turns an untyped CDK
  context value into a boolean. Module `Config`.
- **The `.envrc` rewriter** (`scripts/update-envrc.py`). It sets the value of every
  `export INSTANCE_ID=` line to a new instance id, or appends such a line. Module `EnvRc`.
- **The Discord start notifier** (`lib/lambda/notify-discord.ts`). On an EC2 "running" event it
  normalises the webhook secret and decides whether to skip. It clamps its wait settings, polls
  the instance with a bounded loop, and picks the endpoint and message text. Module `NotifyDiscord`.
- **The instance user-data** (`lib/server/userdata.ts`). This is the ordered boot command list
  handed to EC2. Module `UserData`.

Two helper modules support these. `Wrappers` holds `Option` and `Result`. `Text` holds ASCII
trim and lower-case, split and join on one character, and decimal rendering.

Modelling choices:

- JavaScript `undefined` is `None`. The truthiness of a `string | undefined` (`!s`, `s || d`)
  is `NotifyDiscord.IsSet`: present and not empty.
- The `.envrc` file is its list of `'\n'`-separated lines. The multi-line pattern
  `^(\s*export\s+INSTANCE_ID=).*$` is tested per line (`EnvRc.GroupEnd`). `EnvRc.PatternAt`
  gives the pattern's meaning on positions, and `EnvRc.GroupEndIsPattern` proves the two agree.
  A pattern whose leading `\s*` runs across blank lines gives the same output as the per-line
  test, because the `\1` group puts those characters back.
- The notifier's AWS calls and clock are inputs:
  - `SecretFetch` is the result of reading the secret.
  - `ipAt(i)` and `statusAt(i)` are the two EC2 lookups of round `i`.
  - `clock(i)` is `Date.now()` at the `i`-th loop test, and `now` is the reading used for the
    deadline.
  - The post is returned as `Posted(webhook, content)`.
- The loop is `NotifyDiscord.PollUntilReady`. It is proved equal to the recursive specification
  `NotifyDiscord.Poll`, and `NotifyDiscord.PollExit`, `NotifyDiscord.PollRounds` and `NotifyDiscord.PollBound` prove what the loop guarantees.
  `NotifyDiscord.Handler` is proved equal to `NotifyDiscord.Respond` applied to `NotifyDiscord.Wait`, the poll
  from the first loop test with the handler's deadline and interval.
- The instance-id gate compares two optional strings, as `!==` does. So an unset `INSTANCE_ID`
  and an event without an `instance-id` count as equal. The deployed function always sets
  `INSTANCE_ID` (`lib/server/discord.ts:24`).
- The two messages start with U+1F7E2 and U+1F7E1 (green and yellow circle) and contain U+2014
  (em dash). The source text shows these characters as mis-decoded UTF-8.

## Model

| member | source | states |
|---|---|---|
| `Config.BooleanOf` | lib/server/config.ts:6-15 | The result differs from the default only for a boolean value, or for a string whose trimmed, lower-cased form is a truthy or falsy word |
| `Config.GetBooleanContext` | lib/server/config.ts:5-7 | A key missing from the context reads as `undefined` and yields the default |
| `Config.AbsentIsDefault` | lib/server/config.ts:7-15 | `undefined`, `null` and any value that is neither a string nor a boolean yield the default |
| `Config.BoolUnchanged` | lib/server/config.ts:8 | A boolean is returned unchanged, whatever the default |
| `Config.WordSetsDisjoint` | lib/server/config.ts:11-12 | No word is both truthy and falsy |
| `Config.StringIgnoresDefaultIff` | lib/server/config.ts:9-15 | A string decides the flag independently of the default iff its normalised form is one of the ten words. Truthy words give true, falsy words false, any other string the default |
| `Config.Normalize` | lib/server/config.ts:10 | The compared form is no longer than the input, has no whitespace at either end and has no upper-case ASCII letter |
| `Config.NormalizeIdempotent` | lib/server/config.ts:10 | Normalisation (trim, then lower-case) is idempotent |
| `Config.NormalizedSameResult` | lib/server/config.ts:10 | The result depends on a string only through its normalised form |
| `Config.PaddedWord` | lib/server/config.ts:9-12 | Any case variant of a recognised word, padded with any whitespace, reads as that word |
| `Config.PaddedTrueExample` | lib/server/config.ts:10-11 | `" TRUE "` yields true with a false default |
| `Text.Trim` | lib/server/config.ts:10 | The result is the middle slice of the input, with whitespace-only text cut from both ends and non-space characters at its ends |
| `Text.TrimPadded` | lib/lambda/notify-discord.ts:15 | Trimming a whitespace-padded word with non-space ends gives back exactly the word |
| `Text.TrimIdempotent` | lib/lambda/notify-discord.ts:15 | Trimming twice is trimming once |
| `Text.ToLower` | lib/server/config.ts:10 | Length is kept and every character is lower-cased on its own |
| `Text.TrimToLower` | lib/server/config.ts:10 | Trimming and lower-casing commute |
| `Text.JoinSplit` | scripts/update-envrc.py:16-17 | Joining the lines of a text with line feeds gives the text back |
| `Text.SplitJoin` | lib/server/userdata.ts:23-30 | Splitting a join of separator-free parts gives the parts back |
| `Text.Join` | lib/server/userdata.ts:30 | The empty list joins to "". Otherwise the length is the parts' summed lengths plus one separator between each two parts. `Text.SplitJoin` and `Text.JoinSplit` prove it inverse to `Split` |
| `Text.NatToString` | lib/server/userdata.ts:28 | A number renders as decimal digits without a leading zero |
| `Text.NatToStringValue` | lib/server/userdata.ts:28 | The rendered digits read back as the number |
| `Text.IntToString` | lib/server/userdata.ts:28 | A minus sign iff the integer is negative, then decimal digits without a leading zero that read back as its magnitude |
| `EnvRc.GroupEnd` | scripts/update-envrc.py:16 | A match ends the group at least 19 characters in, right after `INSTANCE_ID=` |
| `EnvRc.GroupEndIsPattern` | scripts/update-envrc.py:16 | The per-line test finds a match iff the pattern matches the line. The group then ends right after `INSTANCE_ID=`, for every way the pattern can match |
| `EnvRc.GroupEndKeepsPrefix` | scripts/update-envrc.py:16-17 | Replacing what follows the group does not change whether or where the line matches |
| `EnvRc.RewriteLine` | scripts/update-envrc.py:17 | A line without a match is unchanged. A matching line keeps everything up to the end of the group, and its remainder becomes `'<id>'` right after `INSTANCE_ID=` |
| `EnvRc.RewriteLineIdempotent` | scripts/update-envrc.py:17 | A rewritten line still matches at the same place, and rewriting it again changes nothing |
| `EnvRc.RewriteLines` | scripts/update-envrc.py:17 | The line count is kept. A line without a match is unchanged, and a matching line becomes its group followed by `'<id>'`. `EnvRc.TransformReplaces` ties this to the pattern's positions |
| `EnvRc.CountMatches` | scripts/update-envrc.py:17 | The substitution count is at most the number of lines |
| `EnvRc.Substitute` | scripts/update-envrc.py:17 | The count `n` of `subn` is at most the number of lines, and it is zero iff no line matches |
| `EnvRc.CountMatchesZero` | scripts/update-envrc.py:17-18 | The substitution count is zero iff no line matches |
| `EnvRc.RStripNewlines` | scripts/update-envrc.py:19 | The result is the input minus a run of trailing line feeds, and it does not end with one |
| `EnvRc.Transform` | scripts/update-envrc.py:15-19 | Without a matching line the output is the text without its trailing line feeds, a line feed, the export line and a line feed. Otherwise it is the lines with every matching line rewritten |
| `EnvRc.Main` | scripts/update-envrc.py:8-19 | A missing or empty NEW_ID is the error "NEW_ID is required", with nothing to write. Otherwise the output is the transform of the file's content, or of "" when the file does not exist |
| `EnvRc.TransformReplaces` | scripts/update-envrc.py:16-17 | When some line matches, the line count is kept and every matching line keeps its prefix. Its remainder becomes `'<id>'`. Every other line is unchanged |
| `EnvRc.TransformAppends` | scripts/update-envrc.py:18-19 | When no line matches, the output ends in exactly one line feed. The lines kept are a prefix of the input's lines: the empty lines its trailing line feeds made are dropped. For an id without a line feed, the output's lines are those lines, then the export line and an empty line |
| `EnvRc.TransformSetsId` | scripts/update-envrc.py:17-19 | The output always has a matching line whose value is `'<id>'` |
| `EnvRc.TransformIdempotent` | scripts/update-envrc.py:16-19 | Rewriting twice with the same id gives the same text as rewriting once |
| `NotifyDiscord.GetWebhookUrl` | lib/lambda/notify-discord.ts:12-22 | A returned webhook is the trimmed secret string. It is not empty, not "None", not "null", and already trimmed |
| `NotifyDiscord.WebhookDisabledIff` | lib/lambda/notify-discord.ts:15-20 | No webhook iff the lookup threw, gave no string, or gave a string that trims to "", "None" or "null" |
| `NotifyDiscord.PaddedWebhook` | lib/lambda/notify-discord.ts:15-17 | Whitespace around a webhook URL is dropped |
| `NotifyDiscord.WebhookStable` | lib/lambda/notify-discord.ts:15-17 | A webhook in normal form reads back unchanged |
| `NotifyDiscord.ServerPort` | lib/lambda/notify-discord.ts:86 | SERVER_PORT when set and not empty, otherwise "5520". Never empty |
| `NotifyDiscord.DefaultPortIsGamePort` | lib/server/config.ts:3 | The default port "5520" is the decimal form of the game's UDP port constant |
| `NotifyDiscord.ClampWait` | lib/lambda/notify-discord.ts:87 | `max(0, n)`: at least n, and equal to n or 0 |
| `NotifyDiscord.ClampPoll` | lib/lambda/notify-discord.ts:88 | Between 1 and 10. Equal to n inside that range, otherwise the nearer bound |
| `NotifyDiscord.MaxWaitSeconds` | lib/lambda/notify-discord.ts:87 | MAX_WAIT_SECONDS, or 45 when unset. A negative value becomes 0 |
| `NotifyDiscord.PollSeconds` | lib/lambda/notify-discord.ts:88 | POLL_SECONDS, or 5 when unset. Always 1 to 10: a value in that range is kept, one below gives 1 and one above gives 10 |
| `NotifyDiscord.SettingsInRange` | lib/lambda/notify-discord.ts:87-88 | The wait is never negative and the poll interval is 1 to 10 seconds. Unset values give 45 and 5 |
| `NotifyDiscord.PublicIpOf` | lib/lambda/notify-discord.ts:97 | A failed IP lookup counts as no IP |
| `NotifyDiscord.StatusOkOf` | lib/lambda/notify-discord.ts:33-39 | Status is ok iff the lookup succeeded and both the system and the instance status are "ok". A failed lookup is not ok |
| `NotifyDiscord.Poll` | lib/lambda/notify-discord.ts:95-103 | The specification of the loop from test `i`: it runs at least `i` rounds, and no round at all iff the clock is past the deadline at the test |
| `NotifyDiscord.PollUntilReady` | lib/lambda/notify-discord.ts:90-103 | The loop's IP, status and number of rounds are those of the specification `Poll` |
| `NotifyDiscord.PollExit` | lib/lambda/notify-discord.ts:95-103 | The loop ends ready or past the deadline, keeping the last round's values (none and false if no round ran) |
| `NotifyDiscord.PollRounds` | lib/lambda/notify-discord.ts:95-101 | Every round runs with the clock at or before the deadline, and only the last round may see a ready instance |
| `NotifyDiscord.PollBound` | lib/lambda/notify-discord.ts:95-102 | The rounds after the first are at most the time left divided by the poll interval |
| `NotifyDiscord.ClockAdvance` | lib/lambda/notify-discord.ts:102 | With a sleep of `pollMs` per round, k rounds later the clock has moved on by at least k times `pollMs` |
| `NotifyDiscord.Endpoint` | lib/lambda/notify-discord.ts:105 | Exactly `host:port`: starts with the IP when one is known, otherwise with "(public IP pending)", ends in `:<port>`, and its length is the host's plus one plus the port's |
| `NotifyDiscord.Content` | lib/lambda/notify-discord.ts:106-108 | The message opens with the green marker iff the status checks passed, otherwise with the yellow one |
| `NotifyDiscord.ContentDetermines` | lib/lambda/notify-discord.ts:106-108 | The message fixes both the status case and the endpoint embedded in it |
| `NotifyDiscord.IsOwnRunningEvent` | lib/lambda/notify-discord.ts:76 | True iff the event has a detail whose state is "running" and whose instance id equals `INSTANCE_ID` (both possibly absent) |
| `NotifyDiscord.Respond` | lib/lambda/notify-discord.ts:76-110 | Posts iff the event is this instance's running event, the ARN is set and the webhook is configured. A skip has a reason iff the event passed the gate |
| `NotifyDiscord.RespondSkips` | lib/lambda/notify-discord.ts:76-84 | A foreign or non-running event is skipped without a reason. A missing ARN or an unconfigured webhook is skipped with its reason. It posts iff none of these holds |
| `NotifyDiscord.RespondMessage` | lib/lambda/notify-discord.ts:105-110 | A post goes to the configured webhook. Its text is the OK or booting message, chosen by the poll's status, with the endpoint built from the poll's IP and the port |
| `NotifyDiscord.Wait` | lib/lambda/notify-discord.ts:92-103 | No round runs iff the first loop test's clock is already past `now` plus the clamped wait |
| `NotifyDiscord.WaitBound` | lib/lambda/notify-discord.ts:87-102 | When the first test is not before `now`, at most wait/interval + 1 rounds run |
| `NotifyDiscord.Handler` | lib/lambda/notify-discord.ts:72-111 | The handler's result is the decision `Respond` applied to the bounded wait `Wait` (the `Poll` from the first test), with the deadline at `now` plus the clamped wait and the clamped poll interval |
| `UserData.HytaleCommands` | lib/server/userdata.ts:15-31 | Exactly eight commands. `UserData.BootOrder` fixes each of them, the eighth being `UserData.LaunchCommand` |
| `UserData.AddHytaleUserData` | lib/server/userdata.ts:33 | The user data keeps its earlier commands and gains exactly the eight commands, in order, after them |
| `UserData.BootOrder` | lib/server/userdata.ts:16-30 | Logging and strict mode come first, then install, mkdir, download, unzip and chmod, and last the launch command `UserData.LaunchCommand` |
| `UserData.UnpackWords` | lib/server/userdata.ts:21 | Unzip reads the zip path the download writes, into the directory made before it |
| `UserData.ChmodWords` | lib/server/userdata.ts:22 | Chmod targets the script the last command runs |
| `UserData.S3UrlRoundTrip` | lib/server/userdata.ts:20 | For a bucket name without '/', the download URL reads back as the bootstrap asset's bucket and key |
| `UserData.DownloadWords` | lib/server/userdata.ts:20 | When the bucket and key hold no space, the download command's words are `aws s3 cp`, the asset URL and the bootstrap zip path |
| `UserData.ParseAssignRoundTrip` | lib/server/userdata.ts:24-28 | For a name without '=', each `NAME="value"` reads back as its name and value |
| `UserData.LaunchValues` | lib/server/userdata.ts:24-28 | Five values: the asset bucket, the asset key and the backup bucket, then the webhook ARN as given (`""` when absent) and the volume size in decimal (`""` when absent). `UserData.VolumeSizeReadsBack` proves the size's digits read back |
| `UserData.LaunchAssignments` | lib/server/userdata.ts:24-28 | Five `NAME="value"` words; each reads back as its variable, in the order of the source, and its value |
| `UserData.LaunchCommand` | lib/server/userdata.ts:23-30 | The last command ends with a space and `bash` on the bootstrap script |
| `UserData.LaunchCommandWords` | lib/server/userdata.ts:23-30 | When no value holds a space, the last command's words are the five assignments in the fixed order, then `bash` and the script path. Each assignment reads back as its variable and value |
| `UserData.AbsentOptionalsEmpty` | lib/server/userdata.ts:27-28 | An absent webhook ARN or volume size is passed as `""` |
| `UserData.VolumeSizeReadsBack` | lib/server/userdata.ts:28 | A non-negative volume size is passed as decimal digits that read back as the size |
| `UserData.StackVolumeSize` | lib/server/instance.ts:6 | The stack's 30 GiB data volume is passed as `DATA_VOLUME_SIZE_GIB="30"` |

## Left out

- Backup upload and pruning to the latest N backups: these run in the bootstrap shell scripts
  under `assets/bootstrap`, which are not part of this model.
- The CDK stacks and constructs (`bin/`, `lib/hytale-*-stack.ts`, `lib/server/network.ts`,
  `instance.ts`, `assets.ts`, `discord.ts`), IAM grants and CloudFormation parameters: these are
  declarative use of a library that is not part of this model.
- Network and cloud I/O: `postJson` and its response, the Secrets Manager and EC2 SDK calls,
  `Date.now`, `sleep`, and the concurrency of `Promise.all`. They appear as inputs and as the
  returned `Posted` request.
- `Text.Trim`: ASCII whitespace only. JavaScript's `trim` also removes Unicode spaces, and
  Python's `\s` also matches `\x1c`-`\x1f` and Unicode spaces. `Text.ToLower` folds ASCII
  letters only.
- `NotifyDiscord.ClampWait`: the environment values appear as integers that are present or
  absent. `Number()` parsing, fractions and NaN (and the floating-point `Math.max`/`Math.min`
  on them) are not modelled.
- `NotifyDiscord.PollUntilReady`: needs the clock to advance by at least the poll interval per
  round. The real loop gets this from `sleep`, and this is also what bounds it.
- `NotifyDiscord.PublicIpOf`: the optional chain `Reservations?.[0]?.Instances?.[0]?.PublicIpAddress`
  is collapsed into one optional value, and likewise the status lookup's chain.
- `EnvRc.GroupEnd`: within a line, `\s` is ASCII whitespace without the line feed. For the
  program, a whitespace run that contains a line feed between `export` and `INSTANCE_ID=` (as in
  `export\nINSTANCE_ID=x`) is a match. For the model it is not.
- `EnvRc.Main`: the id is spliced in literally. The program passes it through the template
  expansion of `re.subn`, which treats a backslash in the id specially. `read_text`'s
  universal newlines, which turn both `\r\n` and a lone `\r` into a line feed, the file and
  environment I/O and the final `print` are left out.
- `EnvRc.TransformIdempotent`: stated for ids without a line feed, since an id with a line feed
  adds lines of its own.
- `EnvRc.TransformReplaces`: stated for ids without a line feed, for the same reason.
- `EnvRc.TransformSetsId`: stated for ids without a line feed, for the same reason.
- `EnvRc.TransformAppends`: its statement of the output's lines holds for ids without a line
  feed only. The appended text itself is stated for every id on `EnvRc.Transform`.
- `Text.IntToString`: renders the exact decimal digits of an integer. A fractional
  `dataVolumeSizeGib` is not modelled, nor JavaScript's rounded digits for integers from 2^53
  in magnitude on, nor its exponent form from 10^21 on.
