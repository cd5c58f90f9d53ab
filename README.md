# Version module of the MRH platform, modelled in Dafny

The `Version` module is a plugin module of the MRH application loop. When it
is constructed it draws a random 32-bit correlation id, reads the system name
and version from the first block called `MRH` of the version file, and
publishes the string `Name + ", Version " + Version + "."` as one say-string
event tagged with that id. The host then hands it inbound string events; each
event that decodes overwrites the module's received id. An update reports
`FINISHED_POP` once the module's timer (30000 ms) has run out or the received
id equals the sent id, and `IN_PROGRESS` before that. The module accepts only
events of kind `MRH_EVENT_SAY_STRING_S`, and asking it for a next module
raises an exception.

Files:

- `wrappers.dfy` (module `Wrappers`): `Option` and `Result`.
- `block_file.dfy` (module `BlockFile`): a parsed block file as a sequence of
  named blocks with key/value maps, and the scan for the first block with a
  given name.
- `event_data.dfy` (module `EventData`): 32-bit ids, event kinds, the
  published event, C-string reading, `memset`/`strncpy` on the fixed text
  buffer (as array methods), and the outgoing event storage (a class whose
  event list grows by `Add`).
- `version.dfy` (module `VersionModule`): the id draw, the version string,
  the `Version` class (`HandleEvent`, `Update`, `NextModule`,
  `CanHandleEvent`), `Create` (the throwing C++ constructor as a method
  returning success or a `ModuleError`), `HandleEvents` (a series of
  inbound events handed over one at a time), and lemmas about such series.

Inputs that the source obtains from outside the module are parameters:
rand()'s value (`draw`, any value in `[0, RAND_MAX]`), the parsed block file
(`None` when it cannot be opened or parsed), the two buffer limits of the
event library (`max < size`), whether the event library created the event,
whether the event storage accepted it, the decoded id of an inbound event
(`None` when it fails to decode), and whether the timer has run out.

Points where the code's behaviour is easy to misread:

- Inbound events whose id differs from the sent id are not ignored: every
  decoded id is stored, so a foreign reply that arrives after the matching one
  and before the next update undoes the match
  (`LaterForeignReplyUndoesMatch`).
- The id is not drawn uniformly over all non-zero 32-bit values: it is
  `rand() % UINT32_MAX + 1`, so it lies in `[1, RAND_MAX + 1]`, and zero is
  excluded by construction rather than by resampling.
- Construction does not fail on an empty value: the emptiness check can only
  fire when no `MRH` block exists, because a block that was found always gives
  a string of at least 11 characters (`VersionLength`).
- A payload longer than the buffer is cut by `strncpy`, not rejected.

## Model

| member | source | states |
|---|---|---|
| `BlockFile.FirstNamed` | src/Module/Version/Version.cpp:60-69 | the scan stops at an index k: no block before k has the name, and the block at k has it unless k is the end |
| `BlockFile.FirstNamedFound` | src/Module/Version/Version.cpp:60-71 | the scan finds a block exactly when some block carries the name |
| `BlockFile.FirstNamedIgnoresSuffix` | src/Module/Version/Version.cpp:60-71 | blocks after the first match do not move where the scan stops |
| `BlockFile.GetValue` | src/Module/Version/Version.cpp:64-66 | a lookup succeeds exactly when the block holds the key, and then yields its value |
| `BlockFile.FirstNamedSkips` | src/Module/Version/Version.cpp:60-62 | a leading block with another name is skipped (the one-block case of FirstNamedSkipsPrefix) |
| `BlockFile.FirstNamedSkipsPrefix` | src/Module/Version/Version.cpp:60-62 | any number of leading blocks with other names are skipped: the stop index moves by exactly their count |
| `VersionModule.DrawId` | src/Module/Version/Version.cpp:47 | the drawn id is draw + 1, in [1, RAND_MAX + 1]: the uint32 modulo and addition never wrap |
| `VersionModule.Version.constructor` | src/Module/Version/Version.cpp:44-48 | timer armed with 30000 ms, sent id drawn from rand(), received id 0; as the drawn id is never 0, an update with the timer running reports IN_PROGRESS |
| `VersionModule.VersionOf` | src/Module/Version/Version.cpp:60-77 | "version not found" exactly when no block is named MRH; a success is the first MRH block's Name + ", Version " + Version + ".", both keys present |
| `VersionModule.FileVersion` | src/Module/Version/Version.cpp:58-83 | an unreadable file gives the file error; a readable one gives VersionOf of its blocks |
| `VersionModule.VersionLength` | src/Module/Version/Version.cpp:64-73 | a version string that was found has at least 11 characters, so the emptiness check never rejects it |
| `VersionModule.VersionFoundIffMrhBlock` | src/Module/Version/Version.cpp:60-77 | reading fails with "version not found" exactly when no block is named MRH |
| `VersionModule.VersionIgnoresLaterBlocks` | src/Module/Version/Version.cpp:60-71 | once an MRH block exists, appending blocks (other MRH blocks included) does not change the result |
| `VersionModule.VersionSkipsOtherBlocks` | src/Module/Version/Version.cpp:60-62 | any prefix of blocks with other names does not change the result |
| `VersionModule.VersionOfExample` | src/Module/Version/Version.cpp:64-67 | the MRH block Name = "MRH OS", Version = "1.0.1" yields "MRH OS, Version 1.0.1." |
| `VersionModule.ReadVersion` | src/Module/Version/Version.cpp:54-83 | the loop with break and the emptiness check yield the first MRH block's Name + ", Version " + Version + ".", a missing-key error, "version not found", or the file error |
| `EventData.CString` | src/Module/Version/Version.cpp:99 | what c_str() readers see: the longest NUL-free prefix, ended by a NUL or the end of the string |
| `EventData.CStringOfTerminated` | src/Module/Version/Version.cpp:99 | a NUL-free prefix followed by a NUL (or the end) is exactly the C string |
| `EventData.Strncpy` | src/Module/Version/Version.cpp:99 | strncpy writes exactly n characters: the source's characters up to its first NUL, cut to n, then NUL |
| `EventData.Memset` | src/Module/Version/Version.cpp:98 | the first n characters of the buffer become the fill character, the rest is untouched |
| `EventData.StrNCopy` | src/Module/Version/Version.cpp:99 | the first n characters of the buffer become Strncpy(src, n), the rest is untouched |
| `EventData.BufferImage` | src/Module/Version/Version.cpp:98-99 | the whole buffer after memset and strncpy: size characters, Strncpy(src, max) in the first max, NUL in the rest |
| `EventData.BufferTerminated` | src/Module/Version/Version.cpp:98-99 | after memset and strncpy every character from position max on is NUL, so the buffer is terminated |
| `EventData.BufferReadBack` | src/Module/Version/Version.cpp:96-100 | the receiver of the buffer reads the payload's C string cut to min(its length, max) characters |
| `EventData.BufferRoundTrip` | src/Module/Version/Version.cpp:96-100 | a NUL-free payload of at most max characters is read back whole |
| `VersionModule.ExampleBufferReadBack` | src/Module/Version/Version.cpp:96-100 | the example version string passes whole through a 64-character buffer |
| `EventData.EventStorage.constructor` | src/Module/Version/Version.cpp:114 | the outgoing storage starts empty |
| `EventData.EventStorage.Add` | src/Module/Version/Version.cpp:114-121 | an accepted event is appended, a refused one leaves the storage as it was |
| `VersionModule.Create` | src/Module/Version/Version.cpp:44-122 | succeeds iff the version was read, the event created and the storage accepted it; then the storage grows by exactly the event (kind SAY_STRING_U, the sent id, the NUL-padded buffer) and the new module is in progress; on every failure (with the matching error) the storage is unchanged |
| `VersionModule.Version.HandleEvent` | src/Module/Version/Version.cpp:131-149 | a failed decode leaves the received id unchanged; a decoded id is stored whether or not it matches |
| `VersionModule.Version.Update` | src/Module/Version/Version.cpp:151-159 | FINISHED_POP iff the timer has run out or the sent id equals the received id, IN_PROGRESS otherwise; a function, so it changes nothing |
| `VersionModule.Version.NextModule` | src/Module/Version/Version.cpp:161-165 | always fails with "no module to switch to" |
| `VersionModule.Version.CanHandleEvent` | src/Module/Version/Version.cpp:171-181 | true exactly for the kind MRH_EVENT_SAY_STRING_S |
| `VersionModule.ReceivedAfter` | src/Module/Version/Version.cpp:136-148 | the received id after one event: unchanged on a failed decode, the decoded id otherwise |
| `VersionModule.Replay` | src/Module/Version/Version.cpp:136-148 | the received id after a series of events is the starting id or the id of one of the decoded events |
| `VersionModule.ReplayAppend` | src/Module/Version/Version.cpp:131-149 | handling two series of events in turn is handling their concatenation |
| `VersionModule.ReplayUndecoded` | src/Module/Version/Version.cpp:136-140 | any number of events that fail to decode leave the received id unchanged |
| `VersionModule.LastDecodedWins` | src/Module/Version/Version.cpp:136-148 | the received id is the id of the last event that decoded |
| `VersionModule.ReplayRepeatIdempotent` | src/Module/Version/Version.cpp:136-148 | handling the same event twice in a row equals handling it once, whatever comes before and after |
| `VersionModule.MatchingReplyFinishes` | src/Module/Version/Version.cpp:147-153 | after a reply carrying the sent id, whatever preceded it, the ids agree, so the next update finishes |
| `VersionModule.ForeignRepliesKeepRunning` | src/Module/Version/Version.cpp:147-153 | replies that never carry the sent id never make the ids agree, so without a timeout the update stays in progress |
| `VersionModule.HandleEvents` | src/Module/Version/Version.cpp:131-159 | handling a series of events one HandleEvent call at a time leaves the received id at Replay of the series; if the last event carries the sent id the next update (timer running) is FINISHED_POP, and if none does and the ids started unequal it is IN_PROGRESS |
| `VersionModule.LaterForeignReplyUndoesMatch` | src/Module/Version/Version.cpp:147 | a foreign reply after the matching one overwrites the received id with the foreign id (a case of LastDecodedWins) |
| `VersionModule.HostRun` | src/Module/Version/Version.cpp:44-159 | a host-run scenario, not a source operation: with the "MRH OS" 1.0.1 file the receiver reads "MRH OS, Version 1.0.1."; after a foreign reply and an undecodable event the update is IN_PROGRESS, with the timer run out it is FINISHED_POP, and after the matching reply it is FINISHED_POP |

## Left out

- src/Main.cpp: the C entry points that load, feed, poll and unload the plugin, the global context pointer, and the translation of exceptions into return codes. This is host glue around an external library.
- src/Revision.h: version constants only, no logic.
- Logging (src/Module/Version/Version.cpp:89-94, 138-145): output only, no effect on state.
- Parsing of the block file, encoding and decoding of events, the event storage's internals, and the timer's clock belong to external libraries. They enter the model as parameters: the parsed blocks or `None`, the decoded id or `None`, the storage's verdict, the creation outcome, and the finished flag.
- `BlockFile.GetValue`: the library is assumed to raise an exception for a missing key, which construction turns into a module exception (`KeyMissing`); the library's own behaviour is not part of this model.
- Text is modelled as one `char` per byte of the `std::string`, so `max` and `size` count bytes and a cut at `max` is a cut at `max` bytes. Multi-byte encodings (UTF-8) are not modelled: a name with a non-ASCII character stands for its byte sequence, one `char` per byte.
- The two buffer limits of the event library (`MRH_EVD_S_STRING_BUFFER_MAX` and its terminated size) are parameters with `max < size`, because their values are defined in the library.
- The text buffer inside the event data struct is a local array, and the event copies its contents. The struct itself and the library's copy are not modelled as objects, and destroying a refused event is modelled only as "not stored".
- The messages carried by module exceptions are reduced to the `ModuleError` cases.
- rand() is an arbitrary value in `[0, RAND_MAX]` (glibc's 2^31 - 1). Its distribution is not modelled.
- Host scheduling and event routing are not modelled. `HandleEvents` and the lemmas about series of events describe calls made one after another, with no update in between.
