# Verified models of the FP6 device code

A Dafny project that models the stateful and arithmetic cores of the DiamaneOS device tree for the
Fairphone 6 and proves what they promise. `dafny verify dfyconfig.toml` checks all of it.

- **Fingerprint HAL** (`FingerprintSession`, `FingerprintHal`, `FingerprintProtocol`): the operation
  state of a session, its message handlers as methods of a class, and all interleavings of the
  threads that touch it. The module lock is a holder field, time a parameter.
- **Camera hints** (`CameraHints`, `CameraBoosts`): the request table and its planner as a class
  over arrays, and the planner together with a power HAL whose boosts only extend unless cancelled.
- **Call audio** (`CallAudioRelay`, `CallAudioSlot`, `CallAudioClient`): the status relay, the slot's
  handler queue with the audioserver monitor and the radio daemon, and the objects that take the
  steps of that model.
- **Tap sensors** (`TapSensors`, `TapProtocol`): held taps, the thread's passes and activations.
- **Firmware releases** (`Text`, `Decimal`, `FirmwareRelease`, `FirmwareTable`, `FirmwareDetection`):
  the table parser, one-pass prefix digests over arbitrary reads, and the verdict.
- **Time keeping** (`TimeKeep`): the saved clock offset over reboots and power losses.
- **Voice effects** (`VoiceSession`, `VoiceEffects`): sessions and their masks. A mask is the set of
  its bits.
- **Colour formats** (`Alignment`, `ColorFormat`, `PictureSize`): plane and buffer sizes with 32-bit
  wrap-around written out. The planes use the division form of the alignment macro, which `MacroIsAlign` shows
  to be the macro.
- **tinyxml2** (`XmlText`, `XmlDecode`, `XmlReference`, `XmlMeaning`, `XmlNul`, `XmlTree`, `XmlRoundTrip`,
  `XmlPrinter`, `XmlParser`, `XmlUnread`, `DomLists`, `DomDocument`, `MemPool`): decoding in place and what
  the text means by XML 1.0, printer and parser, the linked document tree and the node allocator. Bytes are
  chars. A pointer into a text is the rest it points at;
  values are decoded when read, while the source decodes them on first use in cells the parser has
  passed.

The protocol theorems range over all finite runs: a pure step function, in which a step that is not
possible changes nothing, is folded over any sequence of steps. Where the source changes objects in
place, a class has those fields and each method's new state is a function of the old one; the same
functions make up the steps of the runs.

## Where the code does not do what one would expect

- `StrPair::GetStr` takes LF CR for one newline, while section 2.11 of XML 1.0 knows only CR LF and CR
  (`LfCrIsLost`; exact condition in `InPlaceIsNormalized`).
- It passes over an ampersand that starts nothing known without writing it, so after a shorter
  replacement another byte shows up (`AmpersandCanBeLost`), and loses the one of a "&#" at the end of
  the text (`LooseEndIsLost`). `InPlaceIsMeant` has the exact condition for all texts.
- `GetCharacterRef` takes more than references for one: it reads back from the first semicolon to the
  last "#" or "x" (`CharRefTakes`), and reads a power of the radix beyond U+10FFFF as U+10FFFF
  (`ReadsAsMeant`). It also expands references to code points that XML 1.0 forbids: surrogates, for which
  it writes ill-formed UTF-8 (`Utf8IsRfc3629`), and 0.
- A reference to code point 0, such as "&#;", puts a NUL into the value (`NulIsZeroReference` says exactly
  when). A caller that takes the value for a C string sees it end there; `ValueOf` keeps it whole.
- `InsertAfterChild` follows a null pointer exactly when the node to insert is all that follows the given
  child (`NextAfterUnlink`); `Document.InsertAfterChild` excludes exactly that.
- A closing tag that closes nothing at document level ends parsing without an error, and the rest of the text
  is never read (`StrayTagEndsDocument`; `ReadToEndIff` says exactly when an accepted text was read to its end).
- `PrintString` drops what is more than INT_MAX characters behind the last escaped one (`TreeIsKept`).
- The buffer size of a picture wraps around exactly when it does not fit 32 bits (`SizeIsFull`,
  `LargePictureWraps`).
- `saveRecord` reports failure after a rename whose directory sync failed, so that memory and disk
  differ (`MemoryIsTheDisk`, `UnsyncedSaveBreaksTheBound`). `RestoreIsCloseIff` says exactly when a restore
  is still close.
- The comment in `ParseAttributes` says duplicate attributes are not detected; the code refuses them.

## Model

| member | source | states |
|---|---|---|
| `FingerprintProtocol.OneResultPerOperation` | fingerprint/Session.cpp:133-259 | Over every interleaving of requests, module messages, context updates, cancels, re-arm threads and detach: at most one terminal result per operation id; the session marks an operation ended exactly when its result went out; one without a result was replaced, is running or belongs to a detached session; nothing but lockout notices comes from an ended operation and nothing follows the detach |
| `FingerprintProtocol.ModuleCallOrder` | fingerprint/Session.cpp:186-259 | In the order of module calls, no re-arm of an operation follows its cancel, the start of a later operation or the detach; no cancel follows the start of a later operation; id 0 is never removed |
| `FingerprintProtocol.NoRearmAfterStop` | fingerprint/Session.cpp:186-220 | After the sensor was stopped for a current operation of an attached session, no pending re-arm thread starts it again for that operation, whatever runs later |
| `FingerprintProtocol.SuccessIsBacked` | fingerprint/Session.cpp:320-354 | Every success carries a non-zero finger and a token the module reported for this user in the same authenticate operation, at most 1000 ms earlier, and is never sent with press-to-auth set and the screen off |
| `FingerprintProtocol.HeldMatchOnlyWhileAuthenticating` | fingerprint/Session.cpp:617-637 | A held match exists only while an authenticate operation is running, and the module reported it in that operation |
| `FingerprintSession.MessageIsFaithful` | fingerprint/Session.cpp:265-408 | Handling any message in any session state ends an operation exactly when it sends its terminal callback, sends nothing once detached and only lockout notices once ended, and re-arms only for a running operation |
| `FingerprintSession.ContextChangeIsFaithful` | fingerprint/Session.cpp:617-637 | The same for a context change that may release a held match |
| `FingerprintHal.RemovedFingersReportedOnce` | fingerprint/Session.cpp:494-516 | If the module answers each removal with removals only, the operation ends with one callback listing all removed fingers in report order |
| `FingerprintHal.SessionHal.BeginOperation` | fingerprint/Session.cpp:133-144 | A new operation replaces the running one, forgets its held match and removals, and gets a fresh id; a detached session gives 0 |
| `FingerprintHal.SessionHal.FailOperation` | fingerprint/Session.cpp:227-232 | Ends the operation with an error only if it is still the running one |
| `FingerprintHal.SessionHal.OnMatch` | fingerprint/Session.cpp:320-354 | A match is reported, held or dropped as the session state, the finger, the user and the screen say |
| `FingerprintHal.SessionHal.OnLockout` | fingerprint/Session.cpp:369-396 | Every lockout notice is passed on; a timed or permanent lockout ends a running authentication or interaction detection, and a cleared one ends a running lockout reset |
| `FingerprintHal.SessionHal.OnEnumerating` | fingerprint/Session.cpp:355-368 | Collects enumerated fingers and reports them once with the last one |
| `FingerprintHal.SessionHal.OnMessage` | fingerprint/Session.cpp:265-408 | The whole message handler as a step of the session model: new state, callbacks sent and whether a re-arm is due |
| `FingerprintHal.SessionHal.UpdateContext` | fingerprint/Session.cpp:159-178 | Takes over display state and press-to-auth |
| `FingerprintHal.SessionHal.OnContextChanged` | fingerprint/Session.cpp:617-637 | Releases, drops or keeps a held match by its age and the new context |
| `FingerprintHal.SessionHal.RemoveEnrollments` | fingerprint/Session.cpp:494-516 | Asks the module for every non-zero id in order and ends the operation as the fold of its reports says |
| `CameraBoosts.HalFollowsRequests` | power/libqti-perfd-client/camera_hints.cpp:136-228 | With send delays and failing sends, once nothing is dirty and the last plan was sent, the HAL ends each boost at the latest live deadline or less than a millisecond plus the delay later, or within that time from now if no request is live; only a boost from before a failed call can last longer, at most five seconds from the failure |
| `CameraBoosts.HalIsExact` | power/libqti-perfd-client/camera_hints.cpp:131-163 | With no failing and no late sends, each boost ends in the millisecond after the latest live deadline, in every state of every run in which no change waits to be planned or sent |
| `CameraBoosts.HandlesAndDurations` | power/libqti-perfd-client/camera_hints.cpp:60-163 | In every state of every run live handles are distinct and valid, a plan has at most two calls per boost, each call is a cancel or lasts 1 to 5000 ms |
| `CameraHints.SomeCandidateFree` | power/libqti-perfd-client/camera_hints.cpp:116-124 | With a free slot the first 32 candidate handles cannot all be in use, across wrap-around |
| `CameraHints.WantIsLatest` | power/libqti-perfd-client/camera_hints.cpp:139-148 | The scan of the table yields the latest live deadline of a boost, or 0 exactly when none is live |
| `CameraHints.LatestExpiresLast` | power/libqti-perfd-client/camera_hints.cpp:139-163 | As time passes with an unchanged table the wanted deadline stays, until nothing at all is wanted |
| `CameraHints.ExpireKeepsWant` | power/libqti-perfd-client/camera_hints.cpp:263-285 | Clearing expired requests changes no wanted deadline |
| `CameraHints.MsUntil` | power/libqti-perfd-client/camera_hints.cpp:131-134 | Milliseconds to the deadline rounded up, never 0, overshooting by less than a millisecond |
| `CameraHints.Planner.NextHandle` | power/libqti-perfd-client/camera_hints.cpp:116-124 | Returns the first candidate from the counter that no request uses, and leaves the counter behind it, with wrap-around |
| `CameraHints.Planner.Release` | power/libqti-perfd-client/camera_hints.cpp:247-261 | Ends exactly the request with that handle and wakes the worker exactly then |
| `CameraHints.Planner.Acquire` | power/libqti-perfd-client/camera_hints.cpp:263-299 | Renews the request of the handle, or takes the first free slot under the first unused handle from the counter, which ends behind it; refuses unknown hints (releasing the handle), a full table and a missing worker, none of which moves the counter |
| `CameraHints.Planner.Plan` | power/libqti-perfd-client/camera_hints.cpp:139-163 | The calls that bring the HAL from what was sent to what is wanted, and the new record of what was sent |
| `CallAudioSlot.NeverTwiceRunning` | callaudio/src/de/diamaneos/callaudio/SlotClient.java:221-245 | In every run the daemon never receives the same status twice running within a registration |
| `CallAudioSlot.LostChangeStaysPending` | callaudio/src/de/diamaneos/callaudio/SlotClient.java:221-245 | After a status that differs from the last received one was handled, something stays pending and a retry posted until something is delivered or the registration ends |
| `CallAudioSlot.DrainedIsCurrent` | callaudio/src/de/diamaneos/callaudio/SlotClient.java:130-191 | With the queue drained and nothing pending, the last received status is the monitor's |
| `CallAudioRelay.SendLoopResult` | callaudio/src/de/diamaneos/callaudio/SlotClient.java:221-241 | One send loop delivers at most two statuses, never the same twice running, leaves something pending exactly when a call failed, and then remembers the current status as missed unless the daemon has it |
| `CallAudioSlot.LostPairIsReplayed` | callaudio/src/de/diamaneos/callaudio/StatusRelay.java:57-70 | In every run: in a registration whose last received status is s, if a different status was handled and did not arrive and the relay is back at s since, then for any number of failed retries the daemon has received nothing more, or the last lost status, or that and then s; what is pending is the next of these, and a retry is posted until both arrived |
| `CallAudioRelay.StatusRelay.OnAudioStatus` | callaudio/src/de/diamaneos/callaudio/StatusRelay.java:33-38 | Takes a status only with a newer sequence number |
| `CallAudioRelay.StatusRelay.OnRegistered` | callaudio/src/de/diamaneos/callaudio/StatusRelay.java:41-46 | A new registration has received nothing |
| `CallAudioRelay.StatusRelay.OnSendFailed` | callaudio/src/de/diamaneos/callaudio/StatusRelay.java:57-60 | Remembers a lost status unless the daemon has it |
| `CallAudioRelay.StatusRelay.Pending` | callaudio/src/de/diamaneos/callaudio/StatusRelay.java:67-70 | What a registered daemon is owed next: the current status, or a missed one if it has the current one |
| `CallAudioRelay.StatusRelay.Send` | callaudio/src/de/diamaneos/callaudio/SlotClient.java:221-241 | The sending loop over an unreliable call equals its recursive specification |
| `CallAudioClient.SlotClient.OnPublish` | callaudio/src/de/diamaneos/callaudio/AudioServerMonitor.java:98-105 | A changed status gets the next sequence number and is posted to the listener |
| `CallAudioClient.SlotClient.SetOn` | callaudio/src/de/diamaneos/callaudio/SlotClient.java:89-108 | Enabling and disabling as one step of the runs: new activation, fenced registration, removed retries, posted task; keeps the run invariant |
| `CallAudioClient.SlotClient.RunActivate` | callaudio/src/de/diamaneos/callaudio/SlotClient.java:100-107 | An activation starts a relay from the monitor's snapshot and schedules a connect |
| `CallAudioClient.SlotClient.RunUpdate` | callaudio/src/de/diamaneos/callaudio/SlotClient.java:124-128 | A posted status is accepted and sent on the slot's thread |
| `CallAudioClient.SlotClient.Connect` | callaudio/src/de/diamaneos/callaudio/SlotClient.java:130-191 | All outcomes of a connect: absent service, failed link, failed or revoked registration, and registration with the current status |
| `CallAudioClient.SlotClient.OnDied` | callaudio/src/de/diamaneos/callaudio/SlotClient.java:152-155 | A death notice, also a late one of an older registration, fences that registration at once, removes its retries and posts the rest; keeps the run invariant |
| `CallAudioClient.SlotClient.Perform` | callaudio/src/de/diamaneos/callaudio/SlotClient.java:89-215 | Every task of the slot's thread does what the run model says of it |
| `CallAudioClient.SlotClient.RunNext` | callaudio/src/de/diamaneos/callaudio/SlotClient.java:89-215 | Taking a task that is due and running it is a step of the runs and keeps their invariant |
| `CallAudioClient.SlotClient.RunLost` | callaudio/src/de/diamaneos/callaudio/SlotClient.java:193-198 | A death notice ends only the registration it belongs to |
| `CallAudioClient.SlotClient.ClearAll` | callaudio/src/de/diamaneos/callaudio/SlotClient.java:200-215 | Ends the registration and its retries |
| `CallAudioClient.SlotClient.SendPending` | callaudio/src/de/diamaneos/callaudio/SlotClient.java:221-245 | Sends what is pending in the current registration and posts one retry if a call fails |
| `CallAudioClient.SlotClient.RemoveCallbacks` | callaudio/src/de/diamaneos/callaudio/SlotClient.java:119-122 | Removes every waiting instance of one task and keeps the order of the others |
| `TapProtocol.OneEventPerActivation` | sensors/TapSubHal.cpp:263-404 | In every interleaving of activations, reports and passes of the thread a sensor posts at most one event per activation and none while inactive |
| `TapProtocol.HeldTapsAreRecent` | sensors/TapSubHal.cpp:333-404 | A held tap is a double tap that was seen, goes out while its sensor is active, at least 300 ms after it was scheduled and at most 1.6 s after it was seen |
| `TapProtocol.SingleTapsAreNeverHeld` | sensors/TapSubHal.cpp:386-404 | No run holds or releases a single tap |
| `TapProtocol.OffOnlyWhenIdle` | sensors/TapSubHal.cpp:442-483 | A gesture is turned off only after five minutes in which every pass saw it on, unwanted and in low power; a wanted gesture is on after a pass that did not give up |
| `TapSensors.NextDueIsLeast` | sensors/TapSubHal.cpp:350-379 | The thread's next wake-up is the least due time of the held taps, and 0 exactly when none is held |
| `TapSensors.TapSubHal.Initialize` | sensors/TapSubHal.cpp:212-232 | Back to normal mode with no sensor wanted and nothing held |
| `TapSensors.TapSubHal.Activate` | sensors/TapSubHal.cpp:263-272 | Switches the sensor with that handle, and refuses other handles |
| `TapSensors.TapSubHal.Fire` | sensors/TapSubHal.cpp:331-348 | A fired sensor is switched off and holds nothing |
| `TapSensors.TapSubHal.FireEarly` | sensors/TapSubHal.cpp:350-379 | Each held tap is fired, kept or dropped, and the next due time is returned |
| `TapSensors.TapSubHal.Report` | sensors/TapSubHal.cpp:386-404 | Each reported gesture is fired at once, held or ignored |
| `FirmwareDetection.PrefixDigests` | firmware/FirmwareRelease.cpp:129-163 | For every content, every way the reads split it and every ascending set of lengths, one pass yields exactly the digests of the prefixes that exist; it fails only on a failed read |
| `FirmwareDetection.MatchingReleases` | firmware/FirmwareRelease.cpp:165-173 | Exactly the releases with an image whose length and digest match |
| `FirmwareDetection.Result` | firmware/FirmwareRelease.cpp:175-195 | Unknown exactly when a partition matched nothing, mixed exactly when no release is common, else the one common release that outranks all others: newer by number, or of equal numbers first in string order |
| `FirmwareDetection.Detect` | firmware/main.cpp:81-113 | The verdict over the files themselves: a release is held by every partition and outranks every other such release, mixed means none is held by all, unknown covers unreadable files |
| `FirmwareTable.ParseTable` | firmware/FirmwareRelease.cpp:93-123 | Accepts a text exactly if, within the size limits, its lines are entries of distinct releases per partition and every partition has as many images as there are releases, and returns that table |
| `FirmwareTable.SameReleasesEverywhere` | firmware/FirmwareRelease.cpp:114-122 | Among listings without repetition, the ones the count accepts are exactly those in which every partition lists every release |
| `FirmwareTable.OneImageEach` | firmware/FirmwareRelease.cpp:93-123 | An accepted table has exactly one image for each partition and release |
| `FirmwareTable.CountMeansSameReleases` | firmware/FirmwareRelease.cpp:114-122 | With distinct entries, an equal count is the same as an equal set of releases |
| `FirmwareTable.ParseLine` | firmware/FirmwareRelease.cpp:97-105 | A line is taken exactly if it describes an entry, which is then unique |
| `FirmwareRelease.ParseRelease` | firmware/FirmwareRelease.cpp:43-56 | The three numbers of a well-formed release name, or nothing |
| `FirmwareRelease.ParseBytes` | firmware/FirmwareRelease.cpp:59-68 | Accepts exactly the decimal spelling of the sizes in range |
| `FirmwareRelease.ParseDigest` | firmware/FirmwareRelease.cpp:71-89 | Accepts exactly the lower-case hexadecimal spelling of a digest |
| `FirmwareRelease.NewerRelease` | firmware/FirmwareRelease.cpp:125-127 | Numeric order of releases, with malformed names oldest |
| `Text.Split` | firmware/FirmwareRelease.cpp:20-28 | The parts joined by the separator are the text, and no part contains it |
| `TimeKeep.SavedLoadsBack` | timekeep/Record.cpp:35-52 | Every valid record fits the 64-byte read and parses back equal |
| `TimeKeep.RestoreIsSafe` | timekeep/Record.cpp:54-74 | After every run of measurements, saves with any outcome, power losses and counter resets a restore only moves the clock forward, to a time before 2100 and not before the saved one |
| `TimeKeep.CloseIffStands` | timekeep/Record.cpp:54-74 | For a saved record and a measurement: whatever counter and clock the phone boots with, every restored time is less than an hour behind the measured time, and within a second of the counter plus the measured offset if the counter kept running, exactly if the record stands for the measurement, a closed condition on the two |
| `TimeKeep.RestoreIsCloseIff` | timekeep/main.cpp:145-169 | After every run, all restores are that close to the last measurement of a set clock exactly if the record on disk stands for it |
| `TimeKeep.SavesKeepRestoresClose` | timekeep/main.cpp:171-179 | In every run in which each save that was needed reached the disk, every restore is that close, unconditionally |
| `TimeKeep.MemoryIsTheDisk` | timekeep/main.cpp:109-129 | The daemon's copy is what a restart would load exactly while no rename waits to become durable |
| `TimeKeep.UnsyncedSaveBreaksTheBound` | timekeep/main.cpp:109-129 | A rename whose directory sync failed can make a later restore as wrong as that record was, although the last measurement needed no save |
| `TimeKeep.TimeKeeper.MeasureOffset` | timekeep/main.cpp:171-179 | Measures, saves if needed and updates the copy only after a complete save |
| `TimeKeep.TimeKeeper.RestoreClock` | timekeep/main.cpp:145-169 | Sets the clock to the restore target, and leaves it alone without record, counter or target |
| `VoiceSession.MasksAndListAgree` | audio/effects/voice_processing.c:185-347 | After every sequence of calls on live handles the created and enabled masks are the effects' states, session ids are unique and no listed session is empty |
| `VoiceSession.ConfigFixedWhileActive` | audio/effects/voice_processing.c:350-376 | No call changes the configuration of a session with an active effect |
| `VoiceSession.ProcessCompletesFrame` | audio/effects/voice_processing.c:499-526 | Process returns 0 exactly when every active effect ran since the last reset or runs now, and -ENODATA otherwise |
| `VoiceSession.CreateSucceedsUnlessTaken` | audio/effects/voice_processing.c:688-730 | A create fails exactly for an unknown type, an effect the session has, or a new session without memory; it never reaches the clean-up of a half-made session |
| `VoiceEffects.SessionContext.MoveTo` | audio/effects/voice_processing.c:185-257 | The state transition table with its refusals and its effect on the masks |
| `VoiceEffects.SessionContext.SwitchEffect` | audio/effects/voice_processing.c:387-403 | Sets or clears the enabled bit and forgets what was processed |
| `VoiceEffects.SessionContext.AddEffect` | audio/effects/voice_processing.c:302-331 | The first effect of a session resets configuration and masks |
| `VoiceEffects.SessionContext.DropEffect` | audio/effects/voice_processing.c:333-347 | Releases an effect and says whether the session is empty |
| `VoiceEffects.SessionContext.Configure` | audio/effects/voice_processing.c:350-376 | Accepts, ignores or refuses a configuration |
| `VoiceEffects.SessionContext.HandleCommand` | audio/effects/voice_processing.c:528-659 | The commands that change state, with the status they reply; the masks stay the states of the effects |
| `VoiceEffects.SessionContext.ProcessBuffer` | audio/effects/voice_processing.c:499-526 | Marks the effect as processed and completes the frame when all enabled ones are |
| `VoiceEffects.EffectLibrary.FindOrAdd` | audio/effects/voice_processing.c:409-441 | Finds the session by id, refuses an effect it has, or adds a session at the end |
| `VoiceEffects.EffectLibrary.Create` | audio/effects/voice_processing.c:688-730 | The list after a create, as the value model says, and the session of the new handle; ids stay unique, masks right and no session empty |
| `VoiceEffects.EffectLibrary.Release` | audio/effects/voice_processing.c:732-752 | Releases the effect of a listed session, dropping an empty one, and refuses others; ids stay unique, masks right and no session empty |
| `ColorFormat.UsedFitsBuffer` | compat/kernel-headers/include/display/media/mmm_color_fmt.h:1288-1470 | For every format and all 32-bit widths and heights the used size is at most the buffer size and both are multiples of 4096 |
| `PictureSize.SizeIsFull` | compat/kernel-headers/include/display/media/mmm_color_fmt.h:1288-1428 | For every format and all 32-bit sides the computed buffer size is the size in unbounded arithmetic exactly if that size is below 2^32 |
| `PictureSize.BufferHoldsPicture` | compat/kernel-headers/include/display/media/mmm_color_fmt.h:1288-1428 | For every format and all 32-bit sides every luma, chroma or pixel line of the picture fits the unbounded size, and so the buffer whenever that size is below 2^32 |
| `PictureSize.LargePictureWraps` | compat/kernel-headers/include/display/media/mmm_color_fmt.h:1288-1428 | A picture of 65536 by 65536 for which it is not: the buffer is smaller than the picture |
| `ColorFormat.TenBitStride` | compat/kernel-headers/include/display/media/mmm_color_fmt.h:878-882 | The 10-bit stride is 256 bytes per begun 192 pixels exactly for widths up to 1073741760, beyond which a product wraps |
| `Alignment.MacroIsAlign` | compat/kernel-headers/include/display/media/mmm_color_fmt.h:15-18 | The alignment macro's mask branch computes what its division branch would, for all 32-bit operands including wrap-around |
| `Alignment.PowerOfTwoTest` | compat/kernel-headers/include/display/media/mmm_color_fmt.h:15-15 | The macro's test finds exactly the powers of two |
| `XmlMeaning.InPlaceIsMeant` | compat/tinyxml2-v34/tinyxml2.cpp:281-379 | For every text, decoding in place gives the text normalised by section 2.11 of XML 1.0 with every entity and numeric reference expanded, exactly if at no place a run of newlines goes from LF to CR, the text ends with "&#", something that is no reference is taken for one, or an unknown ampersand lands on another byte than an ampersand; all four are conditions on the text |
| `XmlMeaning.InPlaceIsNormalized` | compat/tinyxml2-v34/tinyxml2.cpp:281-379 | Without entities, decoding is the normalisation of section 2.11 exactly if no maximal alternating run of LF and CR starts with LF and ends with CR |
| `XmlMeaning.DecodesAsMeant` | compat/tinyxml2-v34/tinyxml2.cpp:281-379 | The same with entities, for every text in which each ampersand starts one of the five entities or a numeric reference of at least one digit, a semicolon and a number up to 0x10FFFF |
| `XmlMeaning.LfCrIsLost` | compat/tinyxml2-v34/tinyxml2.cpp:296-318 | The text LF CR x decodes to LF x where section 2.11 says LF LF x |
| `XmlMeaning.AmpersandCanBeLost` | compat/tinyxml2-v34/tinyxml2.cpp:355-359 | A text in which an unknown ampersand becomes another letter |
| `XmlMeaning.LooseEndIsLost` | compat/tinyxml2-v34/tinyxml2.cpp:470-559 | A text that ends with "&#" and loses its ampersand |
| `XmlReference.CharRefTakes` | compat/tinyxml2-v34/tinyxml2.cpp:470-559 | What is taken for a numeric reference: the digits behind the last # or x before the first semicolon, perhaps none, in range or a power of the radix above it |
| `XmlNul.NulIsZeroReference` | compat/tinyxml2-v34/tinyxml2.cpp:470-559 | The decoded value of a NUL-free text has a NUL exactly if something in it is taken for a reference to code point 0 |
| `XmlNul.ZeroReferences` | compat/tinyxml2-v34/tinyxml2.cpp:470-559 | "&#;", "&#x;", "&#0;" and "&#x0;" are such references |
| `XmlText.ReadsAsMeant` | compat/tinyxml2-v34/tinyxml2.cpp:470-559 | A numeric reference of any length is read as its number, or refused when out of range, except exactly when the number is a power of the radix above 0x10FFFF, which is read as 0x10FFFF |
| `XmlText.Utf8IsRfc3629` | compat/tinyxml2-v34/tinyxml2.cpp:417-467 | The UTF-8 written for a code point is read back as it by section 3 of RFC 3629, and is ill-formed there exactly for surrogates |
| `XmlDecode.GetStr` | compat/tinyxml2-v34/tinyxml2.cpp:281-379 | The loop over the cells equals the in-place specification for every NUL-free text; the write pointer never passes the read pointer, and cells behind the result keep their content |
| `XmlDecode.GetCharacterRef` | compat/tinyxml2-v34/tinyxml2.cpp:470-559 | The reading of one numeric reference, every edge case included |
| `XmlDecode.FindEntity` | compat/tinyxml2-v34/tinyxml2.cpp:342-354 | The first entity of the table that the text begins with |
| `XmlRoundTrip.PrintedTreeParsesBack` | compat/tinyxml2-v34/tinyxml2.cpp:1038-1150 | A one-root tree of elements, texts, CDATA, comments and unknowns printed in compact mode parses to the same tree exactly when its nesting is within the depth limit, and is refused otherwise |
| `XmlRoundTrip.NodeReadsBack` | compat/tinyxml2-v34/tinyxml2.cpp:706-773 | The same for every node in front of any text it can stand in front of |
| `XmlRoundTrip.AttributesReadBack` | compat/tinyxml2-v34/tinyxml2.cpp:1923-1980 | Printed attributes with distinct names are read back in order up to the end of the tag |
| `XmlRoundTrip.EscapedReadsBack` | compat/tinyxml2-v34/tinyxml2.cpp:2627-2679 | Decoding undoes the printer's escaping of every CR-free string |
| `XmlRoundTrip.TextReadsBack` | compat/tinyxml2-v34/tinyxml2.cpp:207-229 | Text is read up to the first end tag |
| `XmlPrinter.Printer.PrintString` | compat/tinyxml2-v34/tinyxml2.cpp:2627-2679 | Writes the string escaped, without what follows the first INT_MAX characters behind the last escaped one |
| `XmlPrinter.Printer.Accept` | compat/tinyxml2-v34/tinyxml2.cpp:2933-2960 | Printing any tree appends its printed form with every text and attribute value cut as PrintString does, after sealing an open tag, and restores the element stack |
| `XmlPrinter.TreeIsKept` | compat/tinyxml2-v34/tinyxml2.cpp:2627-2679 | Nothing of a tree is cut exactly if no text or attribute value has more than INT_MAX characters behind its last escaped one |
| `XmlPrinter.Printer.OpenElement` | compat/tinyxml2-v34/tinyxml2.cpp:2711-2721 | Seals the parent and opens a tag |
| `XmlPrinter.Printer.PushAttribute` | compat/tinyxml2-v34/tinyxml2.cpp:2724-2732 | Appends an escaped attribute, its value cut as PrintString does |
| `XmlPrinter.Printer.CloseElement` | compat/tinyxml2-v34/tinyxml2.cpp:2783-2808 | Writes a sealed tag for an element without content, a closing tag otherwise |
| `XmlPrinter.Printer.PushLeaf` | compat/tinyxml2-v34/tinyxml2.cpp:2821-2835 | Appends text, CDATA, comment, unknown or declaration |
| `XmlParser.SkipWhiteSpace` | compat/tinyxml2-v34/tinyxml2.h:554-565 | Skips exactly the leading white space |
| `XmlParser.ReadName` | compat/tinyxml2-v34/tinyxml2.cpp:232-249 | The longest name at this point, or none |
| `XmlParser.ReadText` | compat/tinyxml2-v34/tinyxml2.cpp:207-229 | The text before the first end tag and what follows it |
| `XmlParser.ReadAttribute` | compat/tinyxml2-v34/tinyxml2.cpp:1406-1431 | One attribute with its decoded value, or a refusal |
| `XmlParser.ReadAttributes` | compat/tinyxml2-v34/tinyxml2.cpp:1923-1980 | All attributes up to the end of the tag; duplicates are refused |
| `XmlParser.Identify` | compat/tinyxml2-v34/tinyxml2.cpp:706-773 | Tells by its first characters what the next node is |
| `XmlParser.ReadNode` | compat/tinyxml2-v34/tinyxml2.cpp:1061-1081 | Reads the next node, whatever its kind |
| `XmlParser.ReadTag` | compat/tinyxml2-v34/tinyxml2.cpp:2039-2057 | A tag: closing, sealed or neither, with its name and attributes |
| `XmlParser.ReadElement` | compat/tinyxml2-v34/tinyxml2.cpp:2039-2064 | An element with its content, or a closing tag |
| `XmlParser.ReadNodes` | compat/tinyxml2-v34/tinyxml2.cpp:1038-1150 | The loop over a list of nodes: closing tag, end of text, misplaced declaration, depth limit |
| `XmlParser.ParseDocument` | compat/tinyxml2-v34/tinyxml2.cpp:2513-2541 | The nodes of a document or an error |
| `XmlUnread.ReadToEndIff` | compat/tinyxml2-v34/tinyxml2.cpp:1038-1150 | An accepted text was read to its end exactly if a "<" behind it makes it refused; one that was not read to its end is read the same whatever follows it |
| `XmlUnread.StrayTagEndsDocument` | compat/tinyxml2-v34/tinyxml2.cpp:1112-1123 | Every printed tree followed by a closing tag and any text is accepted as that tree alone |
| `XmlUnread.StrayTagIsAccepted` | compat/tinyxml2-v34/tinyxml2.cpp:1112-1123 | The text "<a/></b>" is accepted |
| `DomLists.CutLinked` | compat/tinyxml2-v34/tinyxml2.cpp:854-875 | Unlinking takes the child out of its parent's sequence and leaves every other list as it was |
| `DomLists.SpliceLinked` | compat/tinyxml2-v34/tinyxml2.cpp:891-985 | Inserting between two neighbours puts the node at that index of its parent's sequence and leaves every other list as it was |
| `DomDocument.ExactlyOnePlace` | compat/tinyxml2-v34/tinyxml2.cpp:2175-2186 | Every live node but the document is exactly once on exactly one child list, or exactly once unlinked |
| `DomDocument.MoveKeepsRanks` | compat/tinyxml2-v34/tinyxml2.cpp:891-985 | Moving a node under any node that is not below it makes no cycle |
| `DomDocument.NextAfterUnlink` | compat/tinyxml2-v34/tinyxml2.cpp:952-985 | The next pointer that InsertAfterChild follows after the unlink, not null before it, is null exactly if the moved node was all that followed the given child |
| `DomDocument.Document.CreateUnlinkedNode` | compat/tinyxml2-v34/tinyxml2.h:1984-1995 | A new node has no children and is unlinked |
| `DomDocument.Document.MarkInUse` | compat/tinyxml2-v34/tinyxml2.cpp:2175-2186 | Takes exactly that node off the unlinked list |
| `DomDocument.Document.Unlink` | compat/tinyxml2-v34/tinyxml2.cpp:854-875 | The pointer writes of an unlink, and the list they leave |
| `DomDocument.Document.InsertEndChild` | compat/tinyxml2-v34/tinyxml2.cpp:891-918 | The node leaves its old place and becomes the last child; no cycle arises unless the new parent is below the node |
| `DomDocument.Document.InsertFirstChild` | compat/tinyxml2-v34/tinyxml2.cpp:921-949 | The node leaves its old place and becomes the first child; no cycle arises unless the new parent is below the node |
| `DomDocument.Document.InsertAfterChild` | compat/tinyxml2-v34/tinyxml2.cpp:952-985 | The node leaves its old place and stands behind the given child, also within one parent; refused for another's child; no cycle arises unless the new parent is below the node; excluded is only the case in which the source follows a null pointer |
| `DomDocument.Document.DeleteChild` | compat/tinyxml2-v34/tinyxml2.cpp:878-888 | Deletes exactly the child and everything below it |
| `DomDocument.Document.DeleteChildren` | compat/tinyxml2-v34/tinyxml2.cpp:844-851 | Deletes exactly what is below a node |
| `DomDocument.Document.DeleteNode` | compat/tinyxml2-v34/tinyxml2.cpp:1152-1165 | Deletes an unlinked node and everything below it |
| `DomDocument.Document.Clear` | compat/tinyxml2-v34/tinyxml2.cpp:2188-2193 | Leaves the document node alone, childless and with nothing unlinked |
| `MemPool.Pool.NothingIsLost` | compat/tinyxml2-v34/tinyxml2.h:346-458 | Free items and handed-out items add up to the items of all blocks |
| `MemPool.Pool.Alloc` | compat/tinyxml2-v34/tinyxml2.h:375-399 | Hands out an item that was not handed out, from the free list or a new block |
| `MemPool.Pool.Free` | compat/tinyxml2-v34/tinyxml2.h:401-412 | Puts the item in front of the free list; null is ignored |
| `MemPool.Pool.NewBlock` | compat/tinyxml2-v34/tinyxml2.h:376-387 | A block of new items, each pointing to the next |
| `MemPool.Pool.Clear` | compat/tinyxml2-v34/tinyxml2.h:355-366 | Drops every block and item and resets the counters |

## Left out

- Routing between fingerprint sessions (fingerprint/Fingerprint.cpp): the model is one session that stays the active one; a cancel is answered by the module's CANCELED message for it.
- FingerprintProtocol: each section under the session lock is one atomic step; the real locks are not modelled.
- Fingerprint challenge, authenticator id and close callbacks, which are sent outside the operation contract, and the byte order of tokens.
- CallAudioClient.SlotClient.SetOn: is one atomic step; its race with the slot's thread between the two flag writes is not modelled.
- CallAudioClient.SlotClient.Connect: a whole task of the slot's thread, a connect with its calls into the daemon and a send loop included, is one atomic step against binder deaths and setEnabled, which happen before or after it. A registration that one of them ends while it is being made is the Revoked outcome, and a retry posted after one of them is a step of its own.
- `SlotClient.dispose`, the parameter queue and its budget, and AudioServerMonitor's watch loop: any sequence of published statuses is allowed instead.
- CallAudioClient.SlotClient.RemoveCallbacks: tasks carry no due times; a delayed task may run at any later point, but overtakes nothing posted before it that is not itself delayed.
- Camera: the binder lookup and the worker thread's waiting; a send takes up to a given delay and may fail.
- FirmwareDetection.Result: the verdict is a datatype instead of a string.
- SHA-256 is an arbitrary function from bytes to digests; feeding it in pieces is feeding it the concatenation.
- `android::base::ParseInt` is an arbitrary function that inverts `std::to_string`.
- TimeKeep: reading the counter and the clock are parameters; int64 arithmetic does not overflow for the values the record checks admit.
- VoiceEffects.EffectLibrary.Create: descriptor and UUID lookup are the parameter that says which effect is asked for, if any.
- VoiceEffects.SessionContext.HandleCommand: commands that only read, and the layout of their buffers, are one case that changes nothing.
- tinyxml2 number conversion, file loading, pretty printing, white-space collapsing, line numbers, clones and handles.
- XmlParser.ReadNodes: builds values instead of linking nodes into a document; the linking is modelled by DomDocument. The error code and its line are one error.
- XmlDecode.GetStr: works on a text in an array of its own instead of a stretch of the document's buffer.
- DomDocument.Document.DeleteChild: needs a tree without cycles, which the source takes for granted; the class keeps ranks that show there are none as long as no node is inserted below itself.
- MemPool: the count of untracked nodes and the growth of the block array.
- volume_listener.c, power statistics, Bluetooth, seccomp loaders, graphics and codec shims, DRM headers: they hold little state and would only add easy members.
