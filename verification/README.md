# hashfi, modelled in Dafny

hashfi is a "burnable" secrets vault. A `SessionManager` holds a session
hash, a Fernet key derived from it, and a temporary sandbox directory of
encrypted `.enc` files. A `ThreatMonitor` polls weighted sensors: system
load, file integrity of the project tree, and a keyboard panic key. When the
weighted mean reaches the threshold, the web application burns the session.
A dead-man's switch burns the session after five minutes of inactivity. Small
codecs sit beside the vault: red-channel LSB steganography, and the web
tools' hex, Base64 and `iv:ct` message format.

The project models that core as immutable datatypes and pure functions:

| file | module | models |
|---|---|---|
| common.dfy | `Common` | `Option`, `Result`, bytes, Python `in`/`endswith`/`replace`/`[:n]`, JavaScript `split` |
| base64.dfy | `Base64` | `btoa`/`atob` (standard alphabet, section 4 of RFC 4648) and `urlsafe_b64encode` (section 5) |
| hex.dfy | `Hex` | `buf2hex`, `hex2buf` (with `parseInt(_, 16)`), `token_hex` / `hexdigest` text |
| payload.dfy | `Payload` | the `base64(iv):base64(ct)` message and vault-export text |
| crypto.dfy | `Crypto` | `generate_salt`, `generate_session_hash`, `derive_key`, `secure_wipe` |
| session.dfy | `Session` | `SessionManager` over a disk of directories |
| session_props.dfy | `SessionProperties` | life-cycle invariants, round trips, the listing finding |
| system_sensor.dfy, keyboard_sensor.dfy, file_sensor.dfy | `SystemSensor`, `KeyboardSensor`, `FileSensor` | the three sensors' decision rules |
| sensors.dfy | `Sensors` | `BaseSensor`: one datatype, one `Check` per poll |
| monitor.dfy | `Monitor` | `ThreatMonitor` |
| stegano.dfy | `Stegano` | `encode_lsb`, `decode_lsb`, and the byte-aligned decoder |
| webapp.dfy | `WebApp` | the log ring, activity clock, dead-man step, monitor step, `on_breach`, wiring |

Everything the code reads from the operating system is an argument. That
covers:

- random bytes, `time.time()` and the log's clock text;
- the directory `mkdtemp` creates and how `rmtree` ends;
- the order `os.listdir` reports;
- `os.walk` results and the modification times that can be read;
- psutil readings, the `random.uniform` jitter, and the character waiting on
  standard input.

SHA-256, Fernet and AES-GCM are function values in a record. The only things
assumed of them are that digests are 32 bytes and that decryption undoes
encryption under the same key (`Crypto.Valid`, `Payload.ValidCipher`).
Python floats are Dafny `real`.

Where the code and its documentation differ, the model follows the code:

- `start_session` on an active session does not fail. It replaces every
  field and leaves the old sandbox, with its files, on disk
  (`SessionProperties.StartOnActiveKeepsOldSandbox`).
- `check_threats` does not catch sensor exceptions, so there is no rule that
  a failing sensor scores 0. The one failure the code does absorb is the
  system sensor's connection count, which then contributes nothing.
- `decode_lsb` looks for the delimiter after every bit, although its comment
  says every eight bits. See Findings.

## Model

| member | source | states |
|---|---|---|
| Base64.Encode | hashfi/web/static/tools.js:18-20 | `buf2b64` output has length 4·⌈n/3⌉, and every character is `=` or in the alphabet, so never `:` |
| Base64.CharIsNotSpecial | hashfi/web/static/tools.js:103 | no Base64 alphabet character is `=` or the payload separator `:` |
| Base64.Indices | hashfi/web/static/tools.js:22 | decoding a character string fails exactly when some character is outside the alphabet; otherwise it maps back to the same characters |
| Base64.DecodeEncode | hashfi/web/static/tools.js:18-23 | `b642buf(buf2b64(b)) == b` for every byte string |
| Base64.Decode | hashfi/web/static/tools.js:21-23 | `b642buf` succeeds only when every non-padding character is in the standard alphabet; `DecodeEncode` gives the round trip |
| Base64.DecodeIn | hashfi/web/static/tools.js:21-23 | the same decoding over either alphabet succeeds only when every non-padding character is in that alphabet |
| Base64.DecodeInEncode | hashfi/utils/crypto.py:23-24 | decoding an encoding over the same alphabet (the URL-safe one for Fernet keys) gives the bytes back |
| Base64.DigestEncodingShape | hashfi/utils/crypto.py:23-24 | the Base64 text of a 32-byte digest is 44 characters, with exactly one `=` of padding at the end |
| Common.Split | hashfi/web/static/tools.js:110 | `split(':')` gives one part iff there is no `:`, otherwise at least two; no part contains `:`, and joining the parts with `:` gives the string back |
| Common.SplitJoin | hashfi/web/static/tools.js:103-110 | splitting `a:b` where neither part holds `:` gives exactly `[a, b]` |
| Common.SplitCons | hashfi/web/static/tools.js:110 | the first part is the text before the first `:`, and the remaining parts are the split of the text after it |
| Common.PyPrefix | hashfi/web/app.py:174 | Python's `s[:n]` is a prefix of s, of length min(n, len s) for n ≥ 0 and counted from the end for negative n |
| Common.ReplaceAll | hashfi/core/session.py:66 | `str.replace` leaves text without the pattern unchanged |
| Hex.Radix16 | hashfi/web/static/tools.js:9 | `toString(16)` is one digit below 16 and two digits from 16 to 255, all lowercase |
| Hex.FormatsAgree | hashfi/web/static/tools.js:66 | `padStart(2, '0')` formatting of a byte equals `buf2hex`'s `slice(-2)` formatting: high digit, then low digit |
| Hex.Buf2Hex | hashfi/web/static/tools.js:8-10 | `buf2hex` gives 2·n lowercase digits, the high then the low nibble of each byte |
| Hex.ParsePair | hashfi/web/static/tools.js:14 | `parseInt` of two hex digits is 16·high + low; two non-digits give NaN |
| Hex.Hex2Buf | hashfi/web/static/tools.js:11-17 | `hex2buf` gives ⌊len/2⌋ bytes; each pair of digits yields 16·high + low |
| Hex.Hex2BufBuf2Hex | hashfi/web/static/tools.js:8-17 | `hex2buf(buf2hex(b)) == b` |
| Payload.Join | hashfi/web/static/tools.js:103 | the payload contains `:`, and `split(':')` yields exactly the two Base64 parts |
| Payload.Parse | hashfi/web/static/tools.js:109-113 | a payload without `:` is rejected as malformed; success implies a separator was present |
| Payload.ParseJoin | hashfi/web/static/tools.js:103-113 | parsing a joined payload recovers the IV and the ciphertext |
| Payload.ParseIgnoresLaterPieces | hashfi/web/static/tools.js:110-113 | pieces after the second are ignored: `iv:ct:anything` parses as `iv:ct` |
| Payload.Receive | hashfi/web/static/tools.js:107-121 | a payload without `:` is rejected before decryption |
| Payload.Send | hashfi/web/static/tools.js:94-105 | an empty message produces nothing, and only it; otherwise the payload parses back to the IV and the AES-GCM ciphertext of the message |
| Payload.ReceiveSend | hashfi/web/static/tools.js:94-118 | a non-empty message sent under a cipher is received intact under it |
| Payload.NoSeparatorNoDecryption | hashfi/web/static/tools.js:109 | without `:` the outcome does not depend on the cipher: it is never consulted |
| Crypto.GenerateSalt | hashfi/utils/crypto.py:7-9 | the salt is 2·n lowercase hex characters that decode to the n random bytes |
| Crypto.GenerateSessionHash | hashfi/utils/crypto.py:12-15 | the hash is 64 lowercase hex characters encoding SHA-256 of salt followed by entropy |
| Crypto.SessionHashOfConcatenation | hashfi/utils/crypto.py:14-15 | equal concatenations salt ++ entropy give equal hashes |
| Crypto.DeriveKey | hashfi/utils/crypto.py:18-24 | the key is 44 characters, 43 URL-safe Base64 characters then `=`, and URL-safe decoding gives back the 32-byte SHA-256 digest of the session hash |
| Crypto.SecureWipe | hashfi/utils/crypto.py:39-42 | every element of the buffer is zero afterwards |
| Session.Init | hashfi/core/session.py:19-25 | a new manager is inactive, with no hash, key or sandbox |
| Session.InitConsistent | hashfi/core/session.py:19-25 | a new manager satisfies the life-cycle invariant |
| Session.Start | hashfi/core/session.py:27-41 | when `mkdtemp` returns, afterwards the session is active and consistent, with a new empty sandbox; existing directories are untouched |
| Session.StartRaised | hashfi/core/session.py:27-39 | when `mkdtemp` raises, the hash, salt, start time and derived key are already set, while the sandbox path, `is_active` and the disk are as before |
| Session.StoreSecret | hashfi/core/session.py:45-58 | inactive or missing key/sandbox: False and no change; success only when `name.enc` reaches a sandbox file, and then exactly that file is set to the encryption of the content |
| Session.Resolve | hashfi/core/session.py:52 | the sandbox entry that `os.path.join(sandbox, name + ".enc")` reaches is a plain name (no `/`, no NUL) and a suffix of the joined name; separators and `./` segments before it are skipped |
| Session.RetrieveSecret | hashfi/core/session.py:74-89 | None when inactive; a result is the decryption, under the vault key, of the existing sandbox file that `name.enc` reaches |
| Session.SecretNames | hashfi/core/session.py:65-69 | a name is listed iff some listed `.enc` file yields it with every `.enc` removed |
| Session.SecretsList | hashfi/core/session.py:60-72 | `get_secrets_list` is [] while inactive |
| Session.StoredNames | hashfi/core/session.py:65-69 | the corrected listing: a name is listed iff `name.enc` is in the directory |
| Session.StoredSecretsList | hashfi/core/session.py:60-72 | the corrected `get_secrets_list`: [] while inactive, otherwise exactly the stored names |
| Session.CredentialText | hashfi/core/session.py:106-110 | URL-safe Base64 of SHA-256 of `hash:service` is 44 characters |
| Session.DeriveServiceCredential | hashfi/core/session.py:98-112 | None when inactive or hashless; otherwise a prefix of the credential text, of length min(length, 44), counted from the end for a negative length |
| Session.BurnSession | hashfi/core/session.py:114-135 | with a hash, every field is cleared whatever `rmtree` does; without one, nothing changes; other directories are kept |
| Session.RegenerateSession | hashfi/core/session.py:137-140 | when `mkdtemp` returns, afterwards the session is active and consistent, with an empty sandbox |
| Session.RegenerateRaised | hashfi/core/session.py:137-140 | when the start's `mkdtemp` raises, the burn's disk is kept and a hash is set; a burned live session is left inactive with no sandbox |
| SessionProperties.StorePreservesConsistent | hashfi/core/session.py:45-58 | storing keeps the life-cycle invariant |
| SessionProperties.StoreSucceeds | hashfi/core/session.py:50-58 | while active, a store succeeds iff `name.enc` reaches a file of the sandbox, so always for a plain file name |
| SessionProperties.PlainNameResolvesToItself | hashfi/core/session.py:52 | a `name.enc` without `/` or NUL is the sandbox file it names |
| SessionProperties.DotSlashIsSameName | hashfi/core/session.py:52 | `./x` and `x` reach the same sandbox file, for every relative `x` |
| SessionProperties.DotSlashRoundTrip | hashfi/core/session.py:50-86 | `store_secret("./x", c)` succeeds, and both `x` and `./x` then retrieve `c` |
| SessionProperties.SameEntrySameSecret | hashfi/core/session.py:52 | two names that reach the same file store and retrieve alike |
| SessionProperties.RetrieveAfterStore | hashfi/core/session.py:50-86 | while active, retrieving a name whose `name.enc` reaches a sandbox file returns the content just stored under it |
| SessionProperties.FileNameInjective | hashfi/core/session.py:52 | different names give different joined names `name.enc` |
| SessionProperties.StoreLeavesOthers | hashfi/core/session.py:50-55 | storing one name does not change what any name reaching a different file retrieves |
| SessionProperties.PlainNamesAreDistinct | hashfi/core/session.py:52 | two different plain names reach different files |
| SessionProperties.LaterStoreOverwrites | hashfi/core/session.py:50-55 | after two stores to the same name, retrieve returns the later content |
| SessionProperties.UndecryptableIsAbsent | hashfi/core/session.py:80-89 | a file that exists but does not decrypt reads as None, like a missing one |
| SessionProperties.NeverStoredIsAbsent | hashfi/core/session.py:79-81 | a name whose file does not exist, or cannot be reached, retrieves None |
| SessionProperties.StripExtension | hashfi/core/session.py:66 | removing `.enc` from `g.enc` gives `g` when `g` does not contain `.enc` |
| SessionProperties.ListIsStoredNames | hashfi/core/session.py:60-72 | when no stored name contains `.enc`, the listing holds exactly the stored names |
| SessionProperties.ListStripsInnerExtension | hashfi/core/session.py:66 | a secret stored as `a.enc` is listed as `a`, which retrieves None |
| SessionProperties.StoredListIsStoredNames | hashfi/core/session.py:60-72 | with the correction, every stored name is listed as itself, whatever it contains |
| SessionProperties.BurnPreservesConsistent | hashfi/core/session.py:114-135 | burning keeps the life-cycle invariant |
| SessionProperties.BurnIdempotent | hashfi/core/session.py:116 | burning twice is burning once |
| SessionProperties.NothingAfterBurn | hashfi/core/session.py:114-135 | after a burn there is no secret, no name and no credential to read |
| SessionProperties.BurnRemovesSandbox | hashfi/core/session.py:126-128 | a completed removal deletes the sandbox from the disk |
| SessionProperties.StartOnActiveKeepsOldSandbox | hashfi/core/session.py:27-41 | starting over a live session abandons the old sandbox with its files |
| SessionProperties.RegenerateIsEmpty | hashfi/core/session.py:137-140 | a regenerated session lists nothing and retrieves nothing |
| SessionProperties.HashPresentIffActive | hashfi/core/session.py:91-93 | while the life-cycle invariant holds (every state reached without `mkdtemp` raising), `get_hash` reports a hash exactly while the session is active |
| SessionProperties.StartRaisedDrawsSameSession | hashfi/core/session.py:27-39 | a start whose `mkdtemp` raises has the salt, hash, start time and key of a successful start with the same inputs, and only lacks the sandbox and the activation |
| SessionProperties.RegenerateRaisedReportsHash | hashfi/core/session.py:91-93 | after a regeneration whose `mkdtemp` raises, `get_hash` reports a hash on an inactive manager without a sandbox; the invariant is broken, and store, retrieve, list and credential all refuse |
| SessionProperties.BurnAfterRaisedStart | hashfi/core/session.py:114-135 | the next burn of that state empties every field, leaves the disk alone and restores the invariant |
| SessionProperties.CredentialDeterministic | hashfi/core/session.py:102-112 | credentials depend only on the session hash, the service and the length |
| SystemSensor.Score | hashfi/sensors/system_sensor.py:10-36 | the score is at most 1.0, and lies in [0, 0.9] when the jitter is in [0, 0.2] |
| SystemSensor.CpuBands | hashfi/sensors/system_sensor.py:14-18 | CPU adds 0.4 iff above 80, 0.2 iff in (50, 80], nothing iff at most 50 |
| SystemSensor.NetBands | hashfi/sensors/system_sensor.py:21-29 | connections add 0.3 iff above 100, 0.1 iff in (50, 100], nothing iff at most 50 or the probe failed |
| SystemSensor.CapNeverBinds | hashfi/sensors/system_sensor.py:33-36 | with jitter in [0, 0.2] the score is the plain sum |
| SystemSensor.FailedProbeIsQuiet | hashfi/sensors/system_sensor.py:22-29 | a failed connection probe scores like zero connections |
| KeyboardSensor.CheckThreat | hashfi/sensors/keyboard_sensor.py:15-25 | once triggered: 1.0 and no input consumed; otherwise a pending character is consumed and only `p` triggers; the score is 1.0 iff triggered |
| KeyboardSensor.Reset | hashfi/sensors/keyboard_sensor.py:30-31 | `reset` clears the latch |
| KeyboardSensor.PanicLatches | hashfi/sensors/keyboard_sensor.py:15-25 | from the poll that reads `p` on, every poll scores 1.0 whatever is typed |
| KeyboardSensor.StaysTriggered | hashfi/sensors/keyboard_sensor.py:16-17 | a triggered sensor scores 1.0 on every later poll |
| KeyboardSensor.QuietWithoutPanic | hashfi/sensors/keyboard_sensor.py:19-25 | without a `p`, an untriggered sensor scores 0.0 on every poll |
| FileSensor.Join | hashfi/sensors/file_sensor.py:21 | the joined path ends with the file name |
| FileSensor.KeptFiles | hashfi/sensors/file_sensor.py:18-21 | exactly the files not ending `.pyc` are joined to the root |
| FileSensor.Included | hashfi/sensors/file_sensor.py:32-38 | a path is visited iff it joins a kept file to a root without `__pycache__`, `.git` or `.venv` |
| FileSensor.Snapshot | hashfi/sensors/file_sensor.py:15-25 | the snapshot holds exactly the visited paths whose time could be read, with those times |
| FileSensor.TakeSnapshot | hashfi/sensors/file_sensor.py:12-25 | the snapshot uses the same filter as the check |
| FileSensor.ModifiedOrNew | hashfi/sensors/file_sensor.py:32-52 | the first loop counts something iff a readable visited path is new or has a different time |
| FileSensor.Deleted | hashfi/sensors/file_sensor.py:54-57 | the second loop counts something iff a snapshot path was not visited |
| FileSensor.CheckThreat | hashfi/sensors/file_sensor.py:27-62 | the result is 0.0 or 1.0, and 1.0 iff some path is new, modified or missing |
| FileSensor.UnchangedIsQuiet | hashfi/sensors/file_sensor.py:12-62 | checking against the walk the snapshot came from scores 0.0 |
| FileSensor.UnreadableIsUnmodified | hashfi/sensors/file_sensor.py:39-52 | a snapshot path whose time cannot be read counts as present and unmodified |
| FileSensor.NewFileDetected | hashfi/sensors/file_sensor.py:44-50 | a readable new file under a watched directory scores 1.0 |
| FileSensor.OnlyIncludedTimesMatter | hashfi/sensors/file_sensor.py:32-37 | changes in skipped directories or `.pyc` files are not seen |
| Sensors.NewSensor | hashfi/sensors/base.py:5-7 | the constructor stores name and weight unchanged; the weight defaults to 1.0 |
| Sensors.NewSystemSensor | hashfi/sensors/system_sensor.py:7-8 | the system sensor has weight 1.0 |
| Sensors.NewFileSensor | hashfi/sensors/file_sensor.py:6-10 | the file sensor has weight 2.0, and its snapshot covers only visited paths |
| Sensors.NewKeyboardSensor | hashfi/sensors/keyboard_sensor.py:9-13 | the keyboard sensor has weight 10.0 and starts untriggered |
| Sensors.Check | hashfi/sensors/base.py:9-16 | with a plausible probe (jitter in [0, 0.2]) every poll's score is in [0, 1]; name and weight never change; only the keyboard latch can change |
| Sensors.Reset | hashfi/sensors/keyboard_sensor.py:30-31 | `reset` clears the latch and nothing else |
| Sensors.TriggeredKeyboardScoresOne | hashfi/sensors/keyboard_sensor.py:16-17 | a triggered keyboard sensor scores 1.0 and stays as it is |
| Monitor.New | hashfi/core/monitor.py:6-10 | a new monitor has no sensors, level 0.0, the given threshold (default 0.9) and a no-op callback |
| Monitor.AddSensor | hashfi/core/monitor.py:12-13 | the sensor is appended at the end; nothing else changes |
| Monitor.Poll | hashfi/core/monitor.py:26-27 | every sensor is polled once, in order |
| Monitor.CheckThreats | hashfi/core/monitor.py:15-40 | no sensors: 0.0 and no change; otherwise the returned level is the weighted mean `Monitor.Level` of the polled scores and is stored as the current level; every sensor is replaced by its polled state; the callback fires iff level ≥ threshold; with positive weights and plausible probes the level is in [0, 1] |
| Monitor.Aggregate | hashfi/core/monitor.py:23-34 | the left-to-right accumulation loop computes `Monitor.Level` |
| Monitor.Level | hashfi/core/monitor.py:31-34 | the weighted mean: 0.0 when the weights add up to 0, otherwise level · Σ weight = Σ score·weight |
| Monitor.WeightedScoreBounds | hashfi/core/monitor.py:23-29 | for scores in [0, 1] and positive weights, 0 ≤ Σ score·weight ≤ Σ weight, and Σ weight > 0 when there are sensors |
| Monitor.LevelIsScore | hashfi/core/monitor.py:31-34 | the level of scores in [0, 1] under positive weights is in [0, 1] |
| Monitor.PairSums | hashfi/core/monitor.py:26-29 | for two sensors the sums are the two-term sums |
| Monitor.PanicOutweighs | hashfi/sensors/keyboard_sensor.py:10-12 | a weight-10 score of 1.0 beside a weight-1 sensor gives a level of at least 10/11 > 0.9 |
| Monitor.TriggeredKeyboardBreaches | hashfi/core/monitor.py:37-38 | a monitor at threshold 0.9 holding a weight-1 sensor and a triggered keyboard sensor breaches |
| Stegano.BinaryValue | hashfi/core/stegano.py:12 | the shortest binary numeral of `n` reads back as `n` under `int(s, 2)` and starts with 1 when `n > 0` |
| Stegano.CharBits | hashfi/core/stegano.py:12 | `format(ord(c), "08b")` has at least eight bits, and exactly eight iff the code is below 256; the exact bits for those codes are in `Stegano.ByteCharBits` |
| Stegano.ByteCharBits | hashfi/core/stegano.py:12 | a character below 256 is written as exactly eight bits that read back as its code |
| Stegano.PadBinary | hashfi/core/stegano.py:12 | zero-padding the shortest numeral gives the fixed-width numeral |
| Stegano.MessageBits | hashfi/core/stegano.py:12-13 | the embedded bits end with the delimiter `1111111111111110` |
| Stegano.SetLsb | hashfi/core/stegano.py:21-29 | only the red channel's low bit changes, and it becomes the bit |
| Stegano.Encode | hashfi/core/stegano.py:5-39 | pixel k in row-major order receives bit k; later pixels are untouched; surplus bits are dropped; the size is kept |
| Stegano.Lsbs | hashfi/core/stegano.py:51-55 | bit k of the extracted stream is the red low bit of pixel k, in row-major order |
| Stegano.FirstDelimiter | hashfi/core/stegano.py:51-59 | the first bit count after which the last sixteen bits are the delimiter, or none |
| Stegano.Decode | hashfi/core/stegano.py:42-68 | without a delimiter anywhere in the red low bits the result is the fixed not-found text; otherwise the characters of the eight-bit chunks before the first delimiter |
| Stegano.Chunks | hashfi/core/stegano.py:61-65 | cutting n bits into eight-bit chunks, the last possibly shorter, yields ⌈n/8⌉ characters (their values are in `Stegano.ChunksTextBits`) |
| Stegano.FirstAlignedDelimiter | hashfi/core/stegano.py:57-59 | the first byte boundary at which the last sixteen bits are the delimiter, or none |
| Stegano.DecodeAligned | hashfi/core/stegano.py:42-68 | the corrected decoder: not-found text without a delimiter ending at a byte boundary; otherwise the chunks before the first such delimiter |
| Stegano.ChunksTextBits | hashfi/core/stegano.py:12-65 | reading a byte message's bits in eight-bit chunks gives the message |
| Stegano.EncodedLsbs | hashfi/core/stegano.py:18-30 | with enough pixels, the low bits read back start with the embedded bits |
| Stegano.DecodeEncode | hashfi/core/stegano.py:5-68 | decoding an encoded byte message gives it back when it fits and no delimiter ends early |
| Stegano.NoEarlyAlignedDelimiter | hashfi/core/stegano.py:57-59 | at byte boundaries a delimiter only ends after the pair U+00FF U+00FE |
| Stegano.DecodeAlignedEncode | hashfi/core/stegano.py:57-66 | the byte-aligned decoder round-trips every fitting byte message without U+00FF U+00FE |
| Stegano.MisalignedDelimiter | hashfi/core/stegano.py:59 | as written, U+0001 U+00FF U+00FC decodes to U+0000; byte-aligned, it decodes to itself |
| WebApp.AddLog | hashfi/web/app.py:128-132 | at most 50 entries; the new one is last; below 50 it is appended; at 50 exactly the oldest is dropped |
| WebApp.LogKeepsNewest | hashfi/web/app.py:128-132 | after any number of entries the log is the 50 most recent, oldest first |
| WebApp.Log | hashfi/web/app.py:128-132 | logging changes only the log |
| WebApp.RecordActivity | hashfi/web/app.py:110-136 | the activity clock becomes now; nothing else changes |
| WebApp.DeadmanStep | hashfi/web/app.py:115-125 | inactive or within 300 s: no change; otherwise log CRITICAL and burn |
| WebApp.DeadmanBurnsIff | hashfi/web/app.py:106-124 | afterwards the session is active iff it was active and at most 300 s had passed |
| WebApp.ActivityDefersDeadman | hashfi/web/app.py:110-124 | a step right after recorded activity does nothing |
| WebApp.DeadmanFiresOnce | hashfi/web/app.py:118 | after the switch fires, later steps change nothing |
| WebApp.OnBreach | hashfi/web/app.py:162-164 | logs CRITICAL, then burns the session |
| WebApp.Fire | hashfi/web/app.py:167 | the installed callback is `on_breach`; the default does nothing |
| WebApp.MonitorStep | hashfi/web/app.py:140-150 | inactive: no change; otherwise the monitor is checked, the session is burned iff it breached with `on_breach` installed, and a WARNING follows the breach entry iff the stored level exceeds 0.5 |
| WebApp.NewApp | hashfi/web/app.py:96-107 | the monitor holds the system then the file sensor, threshold 0.9, `on_breach` installed; the session is inactive |
| WebApp.Startup | hashfi/web/app.py:170-174 | the session is active and consistent; the second log entry shows the first eight hash characters |
| WebApp.StepsPreserveConsistent | hashfi/web/app.py:115-167 | every step keeps the session life-cycle invariant |
| WebApp.WiredLevel | hashfi/web/app.py:98-101 | with weights 1 and 2 the level is (s + 2f)/3, and reaches 0.9 iff f = 1 and s ≥ 0.7 |
| WebApp.WiredMonitorBurnsIff | hashfi/web/app.py:140-143 | a monitor step burns an active session iff the project files changed and the system score is at least 0.7 |
| WebApp.NoBurnWithoutFileChange | hashfi/web/app.py:98-101 | without a file change the wired monitor never burns the session |

## Left out

- Crypto: SHA-256, Fernet, PBKDF2 and AES-GCM are function values, not implementations. Fernet's IV and timestamp are an explicit nonce argument.
- Crypto.SessionHashOfConcatenation: holds because the model hashes only the concatenation, the same reason it holds in the source. Nothing is proved about SHA-256 itself.
- Crypto.SecureWipe: an in-place array loop. Its length is fixed by the array type.
- Crypto.DeriveKey: Fernet accepts any key text that decodes to 32 bytes, so its key validity errors cannot arise and are not modelled.
- Session: `tempfile.mkdtemp` and `shutil.rmtree` are parameters. An `rmtree` that raises partway leaves the files it did not reach.
- Session.Start: models the run in which `mkdtemp` returns. When it raises, the source leaves the new hash, salt, start time and key set, with the old sandbox path and `is_active`; that state is `Session.StartRaised`, and the exception itself is not modelled.
- Session.RegenerateSession: likewise models a start whose `mkdtemp` returns. When it raises, the manager is left inactive, with no sandbox but with a hash and a key; that state is `Session.RegenerateRaised`, and `/api/status` then reports `is_active: false` together with a hash.
- SessionProperties.HashPresentIffActive: holds only under the life-cycle invariant. The state a raising `mkdtemp` leaves breaks it, and `get_hash` reports a hash there while inactive (`SessionProperties.RegenerateRaisedReportsHash`).
- WebApp.Startup: models a start whose `mkdtemp` returns. When it raises, the startup handler fails before its second log entry.
- Session: a name reaches the sandbox file that `open` resolves. In a relative name, `/` and `./` segments before the last one are skipped, so the store succeeds on that file; a segment naming a sub-directory (the sandbox holds none), or a NUL, makes the store fail as in the source.
- Session.StoreSecret: an absolute name or one with a `..` segment leads out of the sandbox; the source may write there and return True, while the model returns False.
- Session.RetrieveSecret: likewise returns None for an absolute name or one with a `..` segment, where the source may read a file outside the sandbox.
- SessionProperties.StoreSucceeds: for the same reason states success only for names that stay inside the sandbox. It also ignores the file-name length limit: a plain name whose `name.enc` is longer than the file system allows (255 bytes on most) makes `open` raise ENAMETOOLONG, and the source returns False.
- Session: errors from `open` and `write` other than those above (permissions, a full disk, a file name longer than the file system allows) are not modelled.
- Session: `os.listdir` errors other than a missing sandbox are not modelled; the listing is a parameter.
- Session: `print` calls and `get_sandbox` are not modelled. `get_sandbox` only reads a field.
- Session.SecretsList: as written, its contract only covers the inactive case. What it lists is stated by `SessionProperties.ListIsStoredNames` and, for the finding, `SessionProperties.ListStripsInnerExtension`.
- Monitor: floating-point rounding in the sums and the division is not modelled (`real`).
- Monitor: exceptions raised by a sensor propagate out of `check_threats` in the source. The model has no sensor failure apart from the system sensor's connection probe, which the source catches.
- SystemSensor.Score: CPU percentage, connection count and jitter are inputs. `psutil` sampling for 0.1 s and the random draw are not modelled.
- KeyboardSensor: `select` and `sys.stdin.read(1)` become an optional pending character. Raw terminal mode is not modelled.
- FileSensor: `os.walk` and `os.path.getmtime` become inputs. The file system's consistency between the walk and the time reads is not modelled.
- Stegano: opening, converting and saving images (PIL, PNG) is not modelled. The image is its RGB pixels in row-major order.
- Stegano.DecodeEncode: needs characters below 256. Wider characters are written with more than eight bits and do not round-trip.
- Stegano: a Python `str` may hold lone surrogates, which a Dafny `char` cannot.
- Session.StoreSecret: for the same reason, content or a name holding a lone surrogate is not modelled. The source fails to encode such content (hashfi/utils/crypto.py:30) or such a file name, catches the error and returns False; the model's store cannot meet such text.
- Session.DeriveServiceCredential: for the same reason, a service name holding a lone surrogate is not modelled. The source's `.encode("utf-8")` (hashfi/core/session.py:106) raises uncaught there, so `/api/identity/generate` answers 500; the model always returns the credential.
- Base64.Decode: `atob`'s removal of ASCII white space is not modelled.
- Hex.ParsePair: models `parseInt` on two-character slices only, which is all `hex2buf` passes it.
- Hex.Hex2Buf: JavaScript strings count UTF-16 code units, and the model counts characters. The two differ for characters above U+FFFF: `hex2buf("😀")` is one byte (NaN stored as 0), while the model gives none.
- WebApp: the `%H:%M:%S` log clock text and `time.time()` are arguments, with one reading per step. The two-decimal formatting of the elevated-threat level is not modelled.
- WebApp: daemon threads, `time.sleep`, and the loops around each step are not modelled. `on_breach` is installed after the monitor thread starts, a window in which a breach would call the default no-op; that race is not modelled.
- WebApp: FastAPI routes, HTTP error mapping, templates, uvicorn, the spread subprocess, the persona generator and the shredder are not modelled.
- Also not modelled: `hashfi/main.py` (terminal UI), `hashfi_spread.py` and `hashfi_spread_manual.py` (social posting), and `hashfi/core/shredder.py` (overwrites a file with OS randomness).
- Not modelled: everything in `tools.js` beyond the codecs and the payload format (DOM, fetch, QR codes, clipboard).
- Concurrency: the monitor loop, the dead-man loop and the HTTP handlers share state without locks. The model runs every operation sequentially.

## Findings

| source | as written | input that shows it | evidently intended | confidence | as-written member | corrected member |
|---|---|---|---|---|---|---|
| hashfi/core/session.py:66 | `f.replace(".enc", "")` removes every `.enc` in a file name | store a secret named `a.enc`: the file is `a.enc.enc`, and the listing shows `a`, which retrieves nothing | strip only the final `.enc`, so every stored name is listed as itself | high (not executed) | SessionProperties.ListStripsInnerExtension | SessionProperties.StoredListIsStoredNames |
| hashfi/core/stegano.py:59 | the delimiter is tested after every bit, at any bit offset | encode U+0001 U+00FF U+00FC in 40 or more pixels: bits 7 to 22 are fifteen ones and a zero, so the decoder returns U+0000 | test only at byte boundaries, as the comment on line 57 says | high (not executed) | Stegano.MisalignedDelimiter | Stegano.DecodeAlignedEncode |
