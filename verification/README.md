# Verified models for the LS420D image tools

Dafny models of five parts of this repository, with proofs of what those parts are for:

- **the fan controller**: the hysteresis curve, the worker's control cycle with its timers, the supervisor's
  watchdog, and both running as interleaved processes (`Fan*.dfy`, `SinceTimers.dfy`);
- **the deployment companion**: the newc codec, the checksummed ramdisk wrapper with CRC-32 written out bit by bit
  (section 8 of RFC 1952) and proved to be a polynomial remainder, and the image built through them (`Newc*.dfy`,
  `Utf8.dfy`, `Crc*.dfy`, `Ramdisk.dfy`, `Companion.dfy`);
- **source restoration**: member and link checks, the passes that build the tree, and link resolution, compared with
  the path walk of section 4.13 of POSIX.1-2017 (`Source*.dfy`);
- **the serialised toolchain check**: a locked recipe run by any number of processes (`StampCheck.dfy`);
- **kernel layout and configuration**: the ELF extents and the initrd bound, the record that is printed and read back,
  and the comparison of configurations modulo their source root (`Kernel*.dfy`, `ElfLayout.dfy`,
  `FootprintRecord.dfy`, `ConfigSetting.dfy`).

`Results.dfy`, `Paths.dfy` and `Digits.dfy` hold what several parts share. `dafny verify dfyconfig.toml` checks
everything.

## How the parts are modelled

A loop or a sequence of reassignments is a method, proved equal to a specification function; what the program promises
is then proved about that function over all inputs or all runs. The worker and the supervisor are classes with the
programs' variables. Concurrent programs are state machines: an event list is a run, an event that is not enabled does
nothing, and every command that touches something shared is one event, so anything may happen between two commands.

**Fan, one cycle.** `FanWorker.Sense` computes a cycle from the sensor readings; `Commit` adds what only a completed
cycle does. The timers use 0 for "unset" exactly as the script does, so a start in second 0 of the uptime does not
count; the theorems say so by asking for a positive time.

**Fan, processes.** In `FanSystem` a worker is forked, becomes the worker program, sets full speed, and then repeats
begin, decide, one step per write, read-back, heartbeat. The supervisor boots, retires a recorded worker, stamps the
heartbeat file, forks, records the process number, and polls; reading the clock and reading the heartbeat are two steps,
as in the script, and so are writing the new heartbeat file and moving it into place. Any command may fail, either
process may end at any point, and writing a small file may store, change nothing, or leave it empty. The clock never runs
backwards, a killed process takes no further step, and reading the level back gives the last level written or fails. A
worker that was sent TERM may still finish what it is doing, so the model lets it go on until it ends.

A sleep takes no fixed time in the machine, so what is proved of all runs covers every schedule. Where a theorem
constructs a run, that run gives every sleep its full time, and every restart of the supervisor its two seconds.

Three of the properties one would expect are not true of every run, because a supervisor may be killed while its live
worker is not in the process number file, or is still the forked shell that the next supervisor does not recognise. A run
in which this never happens is *careful*. In careful runs at most one worker is live, a stopped fan is restarted only at
full speed, and a spawn behind a successful full cooling finds the fan at full speed. After a kill in a careful run each
of the three can be broken if and only if that kill was careless, wherever the worker stands (`FanSpawn.CarelessExactly`).
Behind a cooling that fails, the next worker is sure to find full speed exactly if the fan stood there already. The
guarantee behind a quiet poll holds in all runs; in careful runs it also says where the fan stands at that moment.

The watchdog errs on the safe side in one way: it reads the clock before the heartbeat, so a worker that begins a cycle
and reports it between the two readings is killed for a heartbeat from the future (`FanRace`).

**Codec.** Names are byte strings, standing for the UTF-8 encoding of the program's text. A header field is read as
exactly eight hexadecimal digits. The round trip returns the entries exactly when every number fits 32 bits and every
name fits 4096 bytes with its terminator; outside that range encoding still succeeds, as in the program. An empty payload
behind padding that is cut off is accepted, so the end of an archive may lie up to 3 bytes behind the data.

**Source tree.** The output directory is a map from relative paths to nodes; an operation that would have to follow a
symbolic link has an outcome of its own, and the passes are proved never to reach it. `SourceLinks.Resolve` follows the
program's library call, which passes through missing components and files as if they were directories; `Walk` is the
operating system's walk, which does not. The library call asks the system about a link that loops; the answer is an
input, and the theorems hold for every answer. The library also keeps a dictionary of links already resolved during a
call; `SourceCache` models it and shows that it changes no result.

**Toolchain check.** The stamp is right after every success, and from then on nothing is removed until a comparison
reports trouble on equal files: `cmp` reports trouble and difference alike by a nonzero status, and the recipe removes on
either.

**CRC windows.** Any change within four consecutive bytes of an image is detected, except in windows that begin at byte
5, 6 or 7: these straddle the end of the stored header checksum and reach into the time stamp, which nothing else checks,
and for each of them there is a change that goes unnoticed in every image. A change of one byte is always detected.

## Model

| member | source | states |
|---|---|---|
| `FanPolicy.FanCurve` | openwrt/files/usr/libexec/ls420d-fan-policy.sh:6-16 | the six conditional reassignments give the highest level whose own two-threshold trigger is on |
| `FanPolicy.DemandIsThreeTriggers` | openwrt/files/usr/libexec/ls420d-fan-policy.sh:6-16 | with ordered thresholds the result is at least k exactly when trigger k is on, for each k on its own |
| `FanPolicy.DemandMonotone` | openwrt/files/usr/libexec/ls420d-fan-policy.sh:6-16 | a higher temperature or a higher previous state never gives a lower state |
| `FanPolicy.DemandIdempotent` | openwrt/files/usr/libexec/ls420d-fan-policy.sh:6-16 | at a fixed temperature the state settles after one evaluation |
| `FanPolicy.CrossedAtMostOnce` | openwrt/files/usr/libexec/ls420d-fan-policy.sh:6-16 | along a run of any length within a window no wider than the hysteresis each level is crossed at most once |
| `FanPolicy.AtMostThreeChanges` | openwrt/files/usr/libexec/ls420d-fan-policy.sh:6-16 | hence such a run changes the state at most three times |
| `FanPolicy.Temperature` | openwrt/files/usr/libexec/ls420d-fan-policy.sh:82-89 | a reading is accepted exactly if it is a decimal number from 1000 to 150000, and then it is that number |
| `FanPolicy.TemperatureReadsBack` | openwrt/files/usr/libexec/ls420d-fan-policy.sh:82-89 | every number printed as a sensor prints it is read back if plausible and rejected otherwise |
| `SinceTimers.SinceIsEarliest` | openwrt/files/usr/sbin/ls420d-fan:76-93 | a "since" variable with 0 for unset holds the earliest positive time of the unbroken stretch up to now, and 0 if there is none |
| `SinceTimers.Expired` | openwrt/files/usr/sbin/ls420d-fan:76-93 | the test on the difference succeeds exactly when that stretch reaches back the given number of seconds |
| `FanWorker.ScanSensors` | openwrt/files/usr/sbin/ls420d-fan:20-44 | the sensor loop computes the scan: CPU and PHY, failed readings, disk maximum and count only when due, the alarm file |
| `FanWorker.CountAta` | openwrt/files/usr/sbin/ls420d-fan:51-56 | the block device loop counts exactly the vendors that contain ATA |
| `FanWorker.Evaluate` | openwrt/files/usr/sbin/ls420d-fan:50-75 | the reassignments of expected, bad, alarm_bad and target amount to one assessment of the cycle |
| `FanWorker.Advance` | openwrt/files/usr/sbin/ls420d-fan:74-101 | the three timers, the level and the two shutdowns after a cycle, from their values before it |
| `FanWorker.Compute` | openwrt/files/usr/sbin/ls420d-fan:20-101 | one cycle up to its first write takes the worker's variables to the specified next values |
| `FanWorker.Worker.Cycle` | openwrt/files/usr/sbin/ls420d-fan:19-122 | what a cycle writes to the fan in every combination of failures, when it reaches its heartbeat, and that then the fan stands at the decided level and the variables are those of one more completed cycle |
| `FanHistory.HeldChain` | openwrt/files/usr/sbin/ls420d-fan:13-14 | over any run each cycle starts from the level at which the previous one ended, the first from 3 |
| `FanHistory.LevelCoversDemand` | openwrt/files/usr/sbin/ls420d-fan:63-101 | the level of every cycle is at least each of the three demands, and 3 in a faulty or critical cycle |
| `FanHistory.FaultShutdown` | openwrt/files/usr/sbin/ls420d-fan:74-82 | the fault shutdown is due exactly when an unbroken streak of faulty cycles spans 120 seconds |
| `FanHistory.ThermalShutdown` | openwrt/files/usr/sbin/ls420d-fan:83-93 | the thermal shutdown is due exactly when the cycle is critical and the CPU is at 95000 or the critical streak spans 10 seconds |
| `FanHistory.ReductionExactly` | openwrt/files/usr/sbin/ls420d-fan:94-101 | the level drops at a cycle exactly when an earlier cycle at least 60 seconds before began a stretch in which the level was held and every target was below it |
| `FanHistory.ReductionReachesTarget` | openwrt/files/usr/sbin/ls420d-fan:96-98 | a drop goes to the target of its own cycle |
| `FanHistory.ReductionsAreRare` | openwrt/files/usr/sbin/ls420d-fan:94-101 | a run has at most one drop for every 60 seconds it spans, and none in its first 60 |
| `FanHistory.SensorsAreRead` | openwrt/files/usr/sbin/ls420d-fan:26-34 | every cycle works with the last valid CPU and PHY readings in directory order, and is faulty if any reading fails or one is missing |
| `FanHistory.ScanFindsSensors` | openwrt/files/usr/sbin/ls420d-fan:26-34 | the scan's own fault flag is set exactly if some CPU or PHY reading fails |
| `FanHistory.Alarmed` | openwrt/files/usr/sbin/ls420d-fan:66-72 | a cycle counts as alarmed exactly when the level before it was above 0 and the last fan sensor's alarm reads anything but 0 |
| `FanHistory.AlarmFault` | openwrt/files/usr/sbin/ls420d-fan:68-73 | the alarm is a fault exactly from the third alarmed cycle in a row, and then the cycle is faulty and runs at level 3 |
| `FanHistory.FullScanMeaning` | openwrt/files/usr/sbin/ls420d-fan:35-41 | a due scan counts every drive sensor and takes maximum and failure over the drives awake, in whatever order they come |
| `FanHistory.DiskDataIsFresh` | openwrt/files/usr/sbin/ls420d-fan:20-47 | the disk data of every cycle is that of one complete scan less than 20 seconds old, or the initial zeros while the uptime is below 20 |
| `FanHistory.ExpectedIsMost` | openwrt/files/usr/sbin/ls420d-fan:48-57 | the expected count is the largest count of drive sensors or ATA devices in any cycle so far |
| `FanHistory.MissingDiskIsFault` | openwrt/files/usr/sbin/ls420d-fan:48-59 | a cycle that counts fewer disks than any cycle has ever seen is faulty and runs at level 3 |
| `FanAssessment.DemandsExactly` | openwrt/files/usr/sbin/ls420d-fan:60-62 | in every cycle of every run each of the nine levels is reached exactly at its own temperature, or down to the hysteresis below it if it was reached in the cycle before, in the numbers of the script |
| `FanAssessment.CriticalExactly` | openwrt/files/usr/sbin/ls420d-fan:85 | a cycle is critical exactly at 90 degrees of the CPU, 60 of a disk or 100 of the network chip |
| `FanAssessment.FaultExactly` | openwrt/files/usr/sbin/ls420d-fan:26-73 | a cycle is faulty exactly if a CPU or network reading fails or none is valid, there is no fan sensor, fewer disks are counted than in any cycle so far, a drive awake in the scan in use could not be read, or it is the third alarmed cycle in a row |
| `FanAssessment.WorksWithScanInUse` | openwrt/files/usr/sbin/ls420d-fan:20-47 | the disk maximum and count of a cycle are those of the latest scan, and scans are 20 seconds or more apart |
| `FanAssessment.TargetExactly` | openwrt/files/usr/sbin/ls420d-fan:63-75 | the target is 3 in a faulty or critical cycle and otherwise the highest of the three demands |
| `FanAssessment.LevelFollowsTarget` | openwrt/files/usr/sbin/ls420d-fan:94-106 | the level follows the target up at once and down in one step or not at all, and there is a starting pulse exactly when the fan leaves standstill |
| `FanAssessment.AtaIsContained` | openwrt/files/usr/sbin/ls420d-fan:52-56 | a vendor counts as a disk exactly if its text contains "ATA" anywhere |
| `FanAssessment.AtaCounted` | openwrt/files/usr/sbin/ls420d-fan:51-56 | the count is the number of devices with such a vendor |
| `FanSupervisor.HeartbeatReadsBack` | openwrt/files/usr/sbin/ls420d-fan:118-151 | a time that a worker has written reads back as itself, and a file that is missing, empty or holds any other character reads as 0 |
| `FanSupervisor.StalledExactly` | openwrt/files/usr/sbin/ls420d-fan:150-152 | a poll of a file with such a time finds the worker stalled exactly if the time is more than 12 seconds old or in the future |
| `FanSupervisor.Supervisor.Poll` | openwrt/files/usr/sbin/ls420d-fan:150-158 | one look at the heartbeat file: when the worker counts as stalled, and what becomes of the failure timer |
| `FanSupervisor.Supervisor.End` | openwrt/files/usr/sbin/ls420d-fan:163-165 | a worker's end starts the failure timer if it is unset, and the shutdown is its test |
| `FanSupervisor.ShutdownExactly` | openwrt/files/usr/sbin/ls420d-fan:150-165 | over any log the shutdown is due at a worker's end exactly when a worker ended at least 120 seconds earlier and no poll in between saw a heartbeat newer than the start of the worker it watched |
| `FanCycle.UndisturbedCycle` | openwrt/files/usr/sbin/ls420d-fan:20-121 | command by command and left alone, a worker process writes what `Worker.Cycle` writes, ends when it ends, is left in the same state, and takes two seconds for a starting pulse |
| `FanWatchdog.AlwaysTruthful` | openwrt/files/usr/sbin/ls420d-fan:60-159 | in every interleaving the heartbeat is a past time and is either the start of a cycle that finished with the fan seen covering its demand, or no later than the current worker's spawn |
| `FanWatchdog.QuietPollIsSafe` | openwrt/files/usr/sbin/ls420d-fan:60-159 | in every interleaving, a poll that does not intervene happens only within 12 seconds of the current worker's spawn or of the start of a cycle that finished with the level read back at or above all demands, and at 3 if faulty or critical |
| `FanRace.FreshHeartbeatKilledExactly` | openwrt/files/usr/sbin/ls420d-fan:150-157 | in a careful run a worker whose heartbeat began in the last 12 seconds is killed by a poll exactly when that heartbeat is newer than the poll's clock reading; and then it is the worker's own, from a cycle that covered the demand |
| `FanRace.RaceKillsHealthyWorker` | openwrt/files/usr/sbin/ls420d-fan:148-157 | from every careful run in which a worker at the head of its loop is watched, and for all readings, the run can go on so that the worker, sleeping as long as the script says, completes its cycle without failure and is killed |
| `FanRace.WatchedAtItsLoop` | openwrt/files/usr/sbin/ls420d-fan:141-149 | such runs exist |
| `FanWatchdog.ShutdownExactly` | openwrt/files/usr/sbin/ls420d-fan:160-165 | the shutdown condition above, in every interleaving of workers and supervisors |
| `FanOwnership.OneWorkerPerLife` | openwrt/files/usr/sbin/ls420d-fan:143-160 | in every run, of all workers a supervisor has started only its current child can be live |
| `FanOwnership.OneWorker` | openwrt/files/usr/sbin/ls420d-fan:130-160 | in a careful run no two workers are ever live, across restarts of the supervisor |
| `FanOwnership.CarelessKillDoubles` | openwrt/files/usr/sbin/ls420d-fan:130-147 | after every careless kill a restart can put a second live worker beside the first |
| `FanOwnership.StopThenFullSpeed` | openwrt/files/usr/sbin/ls420d-fan:16-162 | in the trace of all levels written by all processes of a careful run, 0 is followed only by 0 or 3 |
| `FanOwnership.SpawnedAtFullSpeed` | openwrt/files/usr/sbin/ls420d-fan:129-162 | in a careful run every worker spawned behind a successful full cooling finds 3 as the last level written |
| `FanOwnership.QuietPollTrustsItsWorker` | openwrt/files/usr/sbin/ls420d-fan:60-159 | in a careful run the recent cycle behind a quiet poll is the watched worker's own |
| `FanStanding.QuietPollFindsFanPlaced` | openwrt/files/usr/sbin/ls420d-fan:60-159 | in a careful run, at a poll that leaves a worker alone more than 12 seconds after its spawn, the last level written by anyone is 3, or covers the demand of a cycle that this worker began no earlier than 12 seconds before the poll's clock reading |
| `FanLowStart.CarelessKillStartsLow` | openwrt/files/usr/sbin/ls420d-fan:103-147 | after every careless kill, at whatever command its worker stands, the run can go on to a write of 0 followed by a write of 1 |
| `FanLowStart.CarelessKillIsPossible` | openwrt/files/usr/sbin/ls420d-fan:144-147 | a careful run can reach the point of a careless kill |
| `FanSpawn.SpawnedAtFullSpeedExactly` | openwrt/files/usr/sbin/ls420d-fan:160-167 | when a worker of a careful run has ended, every way to the next spawn ends with 3 as the last level written if and only if the full cooling succeeds or that level is 3 already |
| `FanSpawn.FirstSpawnedAtFullSpeed` | openwrt/files/usr/sbin/ls420d-fan:129-146 | in a careful run the first worker of every supervisor's life finds 3 as the last level written, whatever the supervisor before it did |
| `FanSpawn.SpawnedAtAnyLevel` | openwrt/files/usr/sbin/ls420d-fan:160-167 | from every careful run with a watched worker at the head of its loop, a failed cooling can let the next worker be spawned at any of the four levels |
| `FanSpawn.CarelessKillSpawnsLow` | openwrt/files/usr/sbin/ls420d-fan:130-167 | after every careless kill, at whatever command its worker stands, the run can go on to a spawn with 0 as the last level written although the cooling before it succeeded |
| `FanSpawn.CarelessExactly` | openwrt/files/usr/sbin/ls420d-fan:130-167 | after a kill in a careful run two live workers, a write of 1 straight after 0, and a spawn at 0 behind a successful cooling are each possible if and only if the kill was careless |
| `CrcPolynomial.CrcIsRemainder` | scripts/cpio_newc.py:88-99 | for every message the checksum is the complement of the one remainder that the message, its first 32 bits complemented, leaves modulo the generator polynomial |
| `CrcStandard.Residue` | scripts/cpio_newc.py:88-99 | every message followed by its checksum, least significant byte first, leaves the register at 0xDEBB20E3 |
| `CrcStandard.CheckValue` | scripts/cpio_newc.py:88-99 | the checksum of the digits 1 to 9 is 0xCBF43926 |
| `CrcStandard.CrcOfNothing` | scripts/cpio_newc.py:87 | the checksum of no bytes is 0 |
| `Crc32.FeedInjective` | scripts/cpio_newc.py:88-89 | different registers stay different under the same data |
| `Crc32.BurstDetected` | scripts/cpio_newc.py:99 | a change confined to four consecutive bytes always changes the checksum |
| `Ramdisk.WrapThenUnwrap` | scripts/cpio_newc.py:83-101 | wrapping succeeds exactly for payloads shorter than 2^32 bytes, and unwrapping returns the payload |
| `Ramdisk.HeaderExactly` | scripts/cpio_newc.py:83-90 | a wrapped image begins with the seven numbers of the header, most significant byte first, the two checksums among them, then the kind and the padded title |
| `Ramdisk.UnwrapExactly` | scripts/cpio_newc.py:93-101 | an image is accepted exactly if first number, kind, length and both checksums are right, and the payload is what follows the header |
| `Ramdisk.BurstRejected` | scripts/cpio_newc.py:93-101 | a change of an acceptable image within four consecutive bytes is rejected if the window ends before byte 8 or begins there or later |
| `CrcLinear.CrcXor` | scripts/cpio_newc.py:88-99 | what a change of the data does to the checksum depends on the change alone: the checksum is linear |
| `CrcLinear.ChangesCancel` | scripts/cpio_newc.py:99 | for windows at byte 5, 6 and 7 a change of stored checksum and time stamp is given that cancels out |
| `Ramdisk.DamageUnnoticed` | scripts/cpio_newc.py:93-101 | in every acceptable image these changes go unnoticed, and the payload is returned as before |
| `Ramdisk.WindowsExactly` | scripts/cpio_newc.py:93-101 | for every window position: all changes of all acceptable images in it are rejected if and only if it ends before byte 8 or begins there or later |
| `Ramdisk.OneByteRejected` | scripts/cpio_newc.py:93-101 | a change of any one byte of an acceptable image is rejected |
| `NewcFormat.SafeNameIsNormal` | scripts/cpio_newc.py:20-27 | normalising an accepted name once is enough and removes at most one leading dot component |
| `NewcFormat.NormalComponents` | scripts/cpio_newc.py:20-27 | a normal name other than the root is a list of components none of which is empty, a dot, or two dots |
| `NewcFormat.SafeNameExactly` | scripts/cpio_newc.py:20-27 | a name is accepted exactly if it is ".", or a list of components joined, with or without "./" in front, which is dropped |
| `Utf8.Utf8Exactly` | scripts/cpio_newc.py:36 | a stored name is taken as text exactly if it is the encoding of a sequence of characters |
| `NewcArchive.HexIsText` | scripts/cpio_newc.py:40 | a header field is the number in lower-case hexadecimal digits |
| `NewcFormat.HexValueExactly` | scripts/cpio_newc.py:57 | a digit is read in either case, each worth its place among the sixteen |
| `NewcFormat.ParseHexPlaces` | scripts/cpio_newc.py:57 | digits count by their places |
| `NewcCodec.Encode` | scripts/cpio_newc.py:30-47 | the growing buffer with its alignment to its own length equals the concatenation of aligned records, or the first refusal is the one specified |
| `NewcArchive.ArchiveIsText` | scripts/cpio_newc.py:30-47 | an archive is the spelled-out records of its entries, numbered from 1, one more for the name TRAILER!!!, and zeros up to a multiple of 512 bytes |
| `NewcProperties.ReadsExactlyRecords` | scripts/cpio_newc.py:54-72 | on arbitrary bytes an entry is read exactly where the data holds magic, thirteen hexadecimal fields, a terminated safe name and behind the padding the whole payload, and it is the entry those fields spell |
| `NewcProperties.ReadRecord` | scripts/cpio_newc.py:33-45 | a record of the encoder at an aligned position is read back as its entry, and the cursor lands right behind it |
| `NewcCodec.Decode` | scripts/cpio_newc.py:50-80 | the decoder ends on arbitrary bytes, with the archive read from the start position or with the error of the first bad record |
| `NewcProperties.DecodesExactly` | scripts/cpio_newc.py:50-80 | decoding succeeds with a list and an end exactly if the data holds these entries one behind the other, each name once, up to an empty trailer that ends there |
| `NewcProperties.FailsExactly` | scripts/cpio_newc.py:50-80 | it fails with an error exactly if, behind some entries, that is what is wrong: a bad record, a trailer with content, or a repeated name |
| `NewcProperties.EncodeSucceeds` | scripts/cpio_newc.py:30-47 | encoding refuses exactly the entry lists with an unsafe, repeated or unencodable name, or with the trailer's |
| `NewcProperties.EncodeFailsExactly` | scripts/cpio_newc.py:30-47 | encoding fails for a reason exactly if the first entry that can be refused, the trailer counting as the last, is refused for it: an unsafe name, one taken by an earlier entry, or no text |
| `NewcProperties.EncodeThenDecode` | scripts/cpio_newc.py:30-80 | between any bytes before and behind, an archive of entries that fit is read back as those entries with normalised names, and reading ends aligned and within the archive |
| `NewcProperties.RoundTripExact` | scripts/cpio_newc.py:30-80 | the round trip returns the entries exactly when every entry fits its header |
| `NewcProperties.CutArchiveDecodes` | scripts/cpio_newc.py:66-76 | an archive cut off behind the trailer's name still decodes to its entries, with an end exactly 3 bytes behind the data |
| `NewcProperties.DecodedIsCanonical` | scripts/cpio_newc.py:50-80 | whatever is accepted has distinct normal names, none of them the trailer's, fields within range, and an end at most 3 bytes past the data |
| `NewcProperties.PayloadsAreSlices` | scripts/cpio_newc.py:68-80 | the payloads of an accepted archive are disjoint slices of the data, in order |
| `NewcProperties.DecodeThenEncode` | scripts/cpio_newc.py:30-80 | what is accepted can be encoded again and then decodes to the same entries |
| `Companion.Image` | scripts/make_initrd.py:90-107 | the image is the wrapped archive of the entry list and reads back as that list; the failures happen exactly when encoding refuses, the size bound is exceeded, or the self-check would fail; with a configuration's own file names only the size bound can fail |
| `Companion.ConfiguredIsEncodable` | scripts/make_initrd.py:45-107 | with the file names that any configuration gives rise to, every entry list can be encoded and is read back |
| `Companion.EntriesArePermitted` | scripts/make_initrd.py:92-100 | files below etc/dropbear, root/.ssh and etc/crontabs and the backup settings grant nothing to group and others, all other files are readable, directories likewise, and every file is there with its name and content |
| `Companion.FoldersBeforeContents` | scripts/make_initrd.py:92-100 | with the file names of any configuration, every entry lies at the top or in a directory whose entry comes before it |
| `Companion.CheckDecides` | scripts/make_initrd.py:101-106 | within the size bound the self-check fails exactly when some file's name is not normal or is too long |
| `SourceNames.SafeNameExactly` | scripts/restore-source-review.py:36-42 | a member name is accepted as a path exactly when, up to trailing slashes, it is the text of that path and every component is harmless |
| `SourceNames.NameExactly` | scripts/restore-source-review.py:36-42 | a member name is accepted exactly if it is a safe path written out, perhaps with slashes behind it |
| `SourceNames.TextIsInjective` | scripts/restore-source-review.py:51-56 | different paths have different dictionary keys |
| `SourceNames.LexicalIsNormpath` | scripts/restore-source-review.py:57-59 | following a target on components agrees with normalising the joined text |
| `SourceNames.LinkOkExactly` | scripts/restore-source-review.py:55-63 | a link is accepted exactly if its target is a nonempty relative text without a backslash that leads to a safe path |
| `SourceNames.NeverAbove` | scripts/restore-source-review.py:57-63 | a link that passes the lexical test does not rise above the root at any prefix of its walk |
| `SourceExtract.AcceptableExactly` | scripts/restore-source-review.py:45-67 | an archive is accepted exactly if it has at most 100000 members of at most 2 GiB together, with names and links of distinct safe paths that lie below directories only |
| `SourceTree.CheckMembers` | scripts/restore-source-review.py:51-63 | the first loop accepts exactly the lists of allowed members with distinct paths, and builds the dictionary |
| `SourceTree.CheckAncestors` | scripts/restore-source-review.py:64-67 | the second pair of loops accepts exactly when nothing above a member is a member other than a directory |
| `SourceTree.CreateExactly` | scripts/restore-source-review.py:74-81 | something is created exactly if nothing is there yet and its folder is a directory and not a link to one |
| `SourceTree.MakeDirectoriesExactly` | scripts/restore-source-review.py:71 | directories are made from the last one of the path that is there, which has to be a directory and not a link, and nothing else changes |
| `SourceTree.Places` | scripts/restore-source-review.py:69-78 | in the first pass no member collides with anything or passes through a link, whatever came before it |
| `SourceTree.LinkFits` | scripts/restore-source-review.py:79-81 | in the second pass no link collides with anything or passes through a link |
| `SourceTree.FilePass` | scripts/restore-source-review.py:68-78 | the pass leaves every directory and file member, the directories above all members, and nothing else; it fails only for a file named "." |
| `SourceTree.LinkPass` | scripts/restore-source-review.py:79-81 | with the links the tree is the one the members describe; it fails only for a link named "." |
| `SourceTree.TreeIsUnique` | scripts/restore-source-review.py:68-81 | there is only one tree that the members describe |
| `SourceLinks.WalkIsResolved` | scripts/restore-source-review.py:82-90 | whatever the operating system can walk, through any number of links, the library call resolves to the same place |
| `SourceLinks.VerdictIsRight` | scripts/restore-source-review.py:82-90 | of the links that the operating system can follow, exactly those that end inside the root pass |
| `SourceLinks.LoopingExactly` | scripts/restore-source-review.py:82-90 | a link that runs into a loop cannot be followed by the system either; it is refused as such if the system says so, and otherwise judged on paper |
| `SourceLinks.LexicalIsReal` | scripts/restore-source-review.py:57-90 | a link that passed the lexical test and whose walk meets no other link really leads where the test put it, and passes |
| `SourceLinks.FromTopIsReal` | scripts/restore-source-review.py:82-90 | the lexical reading that is used for a looping link is where a path leads when there are no links |
| `SourceCache.CacheChangesNothing` | scripts/restore-source-review.py:82-90 | the library's dictionary of links already resolved, grown and consulted along a call, gives the same resolution as following every link anew, loops included |
| `SourceExtract.ResolvePass` | scripts/restore-source-review.py:82-90 | the last pass succeeds exactly when every link passes, and otherwise reports the verdict on one that does not |
| `SourceExtract.ExtractTree` | scripts/restore-source-review.py:45-90 | nothing is written unless all member checks pass; then the output is exactly the described tree, and the call succeeds if and only if every link resolves inside it |
| `SourceExtract.MembersAreFound` | scripts/restore-source-review.py:68-81 | every member's path holds its own bytes and time, executable exactly if an execute bit is set, or its own target, or is a directory; whatever is not a directory is a member |
| `SourceExtract.RestoredTargetsAreSafe` | scripts/restore-source-review.py:55-81 | every link of a restored tree has a relative target without a backslash, which leads to a path without ".." and ".git" |
| `SourceExtract.OrderIrrelevant` | scripts/restore-source-review.py:48-81 | every order of the same members is accepted or refused alike and gives the same tree |
| `SourceExtract.RestoredLinksStayInside` | scripts/restore-source-review.py:82-90 | after success, following any link as the operating system does ends inside the root if it ends at all |
| `SourceExtract.RestoredLinksResolve` | scripts/restore-source-review.py:82-90 | if the system reports every loop, then after success every link of the tree really resolves, and inside the root |
| `SourceExtract.RestoredLinkIsLexical` | scripts/restore-source-review.py:57-90 | in a restored tree a link whose walk meets no other link leads where the lexical test put it |
| `StampCheck.OneInside` | openwrt/patches/110-serialize-toolchain-version-check.patch:14-22 | in every run at most one process is between taking the lock and its end |
| `StampCheck.EntersExactly` | openwrt/patches/110-serialize-toolchain-version-check.patch:14-22 | in every run a waiting process can take the lock exactly if nobody is inside: however a process ends, it lets the next one in |
| `StampCheck.SuccessLeavesRevision` | openwrt/patches/110-serialize-toolchain-version-check.patch:16-22 | every success leaves the stamp equal to the revision, whatever has failed before, and one that moved the file has left none behind |
| `StampCheck.NoRemovalAfterSuccess` | openwrt/patches/110-serialize-toolchain-version-check.patch:14-22 | in every run, after a success and until a comparison misreports equal files, nothing is removed and the stamp is right; one step ends this exactly if it is such a misreport |
| `StampCheck.RemovalNeedsMisreport` | openwrt/patches/110-serialize-toolchain-version-check.patch:14-22 | whenever something is removed after a success, some comparison after a success misreported equal files |
| `StampCheck.MisreportRemoves` | openwrt/patches/110-serialize-toolchain-version-check.patch:17-21 | a comparison that misreports equal files goes on to remove the right stamp |
| `StampCheck.MisreportAfterSuccess` | openwrt/patches/110-serialize-toolchain-version-check.patch:17-21 | such a misreport is possible after a success |
| `StampCheck.UnserialisedRemoves` | openwrt/patches/110-serialize-toolchain-version-check.patch:7-12 | the recipe without the lock removes everything after a success, with nothing failing |
| `ElfLayout.HeaderIsRead` | scripts/check-kernel-footprint.py:32-45 | for every ELF header as it is written, in either byte order, the check finds its table or refuses it for the right field |
| `ElfLayout.OtherFiles` | scripts/check-kernel-footprint.py:32-34 | a file that is too short for a header, or does not begin as an ELF file does, is refused as no ELF file |
| `ElfLayout.TableIsRead` | scripts/check-kernel-footprint.py:46-57 | for every table of program headers as it is written, the check reads type, physical address and both sizes of each, in order, and finds no segment exactly if none is loadable and nonempty |
| `ElfLayout.ShortTableIsRefused` | scripts/check-kernel-footprint.py:47-51 | a file is refused as truncated exactly if its table does not fit into it |
| `KernelFootprint.LoadFootprint` | scripts/check-kernel-footprint.py:30-60 | a malformed file is refused for the specified reason; otherwise the result is the lowest address and the two highest ends over exactly the loadable nonempty segments |
| `KernelFootprint.OrderIrrelevant` | scripts/check-kernel-footprint.py:46-60 | the extents depend only on which loadable segments there are, not on their order or on other headers |
| `KernelFootprint.FiguresExactly` | scripts/check-kernel-footprint.py:63-70 | image and footprint are the greatest reach of any loadable segment in the file and in memory, and the two ends are what the decompressor and the worse of both need |
| `KernelFootprint.VerdictExactly` | scripts/check-kernel-footprint.py:63-100 | a kernel is accepted exactly when every loadable segment, rebased, ends below the initrd both in memory and with uImage and scratch area behind it; the verdict names the part that does not |
| `KernelFootprint.CheckKernel` | scripts/check-kernel-footprint.py:63-100 | the same for the bytes of a file, from its headers to the verdict |
| `FootprintRecord.GoodLineExactly` | scripts/lib.sh:146-166 | a line is good exactly if it is one of five keys with a decimal number or one of four with a lower-case hexadecimal address, character by character |
| `FootprintRecord.LinesExactly` | scripts/lib.sh:146 | the lines of a record have no line feed in them and make the text up again |
| `FootprintRecord.Validate` | scripts/lib.sh:142-174 | the reader accepts exactly the records with nine well-formed lines, one per key; it prints the lines up to the first that is malformed or repeats a key |
| `FootprintRecord.ReportValidates` | scripts/check-kernel-footprint.py:73-83 | for all sizes the printed lines are accepted exactly when the worst-case end does not exceed the initrd's address, and then come back byte for byte |
| `FootprintRecord.RecordSays` | scripts/check-kernel-footprint.py:73-83 | each of the nine keys of the printed record has its own figure behind it, as a number that reads back |
| `FootprintRecord.AcceptedRecordValidates` | scripts/check-kernel-footprint.py:73-100 | the record of every accepted kernel is valid |
| `Digits.DecimalReadsBack` | scripts/check-kernel-footprint.py:73-83 | a printed decimal number reads back as itself |
| `Digits.NumberPlaces` | scripts/check-kernel-footprint.py:73-83 | decimal digits count by their places |
| `Digits.HexReadsBack` | scripts/check-kernel-footprint.py:73-83 | a printed hexadecimal number reads back as itself and has at least the asked width |
| `Digits.HexNumberPlaces` | scripts/check-kernel-footprint.py:73-83 | hexadecimal digits count by their places |
| `ConfigSetting.LinesExactly` | scripts/compare-kernel-config.py:16 | a text splits into lines that make it up again, each ended by one of the ten characters or by carriage return and line feed, except perhaps the last |
| `ConfigSetting.RootExactly` | scripts/compare-kernel-config.py:26-30 | a root is accepted exactly if it is one slash or two and proper components joined, or two slashes alone |
| `ConfigSetting.SuffixExactly` | scripts/compare-kernel-config.py:33-35 | the path below the root is accepted exactly if it is the target directory with a nonempty name of the allowed characters |
| `ConfigSetting.BlankExactly` | scripts/compare-kernel-config.py:24 | words are split at the 29 characters that Python takes for blanks |
| `ConfigSetting.RebasedExactly` | scripts/compare-kernel-config.py:39-40 | the line that takes the place of the setting, character by character |
| `ConfigSetting.SettingExactly` | scripts/compare-kernel-config.py:21-38 | a line is read as a setting exactly if it quotes two paths below one canonical root, the required one if any, and these are its parts |
| `ConfigSetting.AcceptedExactly` | scripts/compare-kernel-config.py:15-41 | a text is accepted exactly if one line, and no other, is such a setting |
| `KernelConfig.NormalizedLines` | scripts/compare-kernel-config.py:15-41 | an accepted text has one setting line, and its normalised form splits into the same lines except for that one |
| `KernelConfig.EqualExactly` | scripts/compare-kernel-config.py:15-58 | two accepted texts compare equal exactly when they agree on every line but the setting, and there in suffix and line ending |
| `KernelConfig.WrittenIsRead` | scripts/compare-kernel-config.py:21-38 | a setting written under any usable root is accepted with that root, suffix and ending |
| `KernelConfig.WrittenIsAccepted` | scripts/compare-kernel-config.py:15-41 | a text of nothing but such a setting is accepted, and normalises to the same text under every usable root |
| `KernelConfig.RelocationComparesEqual` | scripts/compare-kernel-config.py:15-41 | moving an accepted configuration to any usable root gives one that is accepted there and compares equal |
| `KernelConfig.CompareConfigs` | scripts/compare-kernel-config.py:44-58 | the report says valid exactly when both texts are accepted, and matching exactly when they then differ in nothing but the root |

## Left out

- ReadsExactlyRecords: reads a header field as eight hexadecimal digits; the program's number parser also takes signs, blanks and underscores.
- EncodeThenDecode: asks for numbers below 2^32 and names of at most 4095 bytes; `RoundTripExact` says what happens otherwise.
- OneWorker: counts worker processes; commands that a killed shell has already started, and reuse of process numbers, are not modelled.
- Validate: keys contain no spaces, so the program's space-separated text of keys seen is a sequence of keys.
- ExtractTree: permissions and times of directories, name lengths, full disks and null characters in names are not modelled.
- The resolution call is the one of Python up to version 3.12, which asks the system about looping links; version 3.13 does not.
- Text encoding: names in the codec are bytes, and a name that is no valid UTF-8 stands for text that cannot be encoded.
- The log messages, the status file, the real-time clock alarm and the power-off command of the fan scripts are not modelled beyond the fact that a shutdown is due.
- Discovery of the cooling device and of thermal zones is one command that succeeds or fails.
- The files dictionary of the companion, its key material and its configuration text are inputs; sorting is taken as done.
- The digests and the textual difference in the comparison report are not modelled.
- The tar and ZIP formats, the inventory checks of `restore`, the packaging, auditing and notice scripts, the pull service and the workflows are not part of this model: their claims follow from single checks.
