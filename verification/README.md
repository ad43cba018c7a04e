# Keyboard firmware: event pipeline, persistent keymap, scheduler and UF2 converter

A Dafny model of the stateful core of the keyboard firmware under `keyboard/qmk/firmware`
and of its host-side UF2 converter, with proofs of what that code keeps over whole runs.
`dafny verify dfyconfig.toml` checks everything.

| files | what they model |
|---|---|
| `TapModel`, `TapResolver` | the tap/hold resolver: its specification as a function on states, and the code over its ring buffer proved equal to it |
| `TapLedger`, `TapOrder`, `TapProgress` | conservation, per-key order and progress of the resolver |
| `TapBalance`, `TapAccounts`, `TapFate`, `TapRestart` | agreement of presses and releases, an account of every tap, what becomes of a release that breaks the agreement, and a run in which one does |
| `TapDecisions`, `TapReasons`, `TapTiming` | the reason of every delivery, where it stands among the events, and when it comes |
| `TapArrivals`, `TapRepeats` | the other direction: what a call has to deliver for the event that arrives, what interrupts a key, and when a press has to repeat a tap |
| `TapLayers`, `TapLayerRuns` | the layer cache, which is written before and behind the resolver, and two runs of it |
| `ByteData`, `Eeprom`, `KeymapLayout`, `Keymap`, `ViaReset`, `ViaBuilds`, `MacroSend` | the paged EEPROM driver, the keymap in it with its one-entry cache, the re-initialisation protocol under power cuts and over two builds, and the macro parser |
| `DynamicMacro` | two macros recorded from both ends of one array |
| `DeferredExec` | the deferred executor with wrapping tokens and deadlines |
| `Bits`, `PressMemory`, `PressRelease` | packed bit tables, and why a release goes where its press went |
| `MatrixRow`, `Matrix` | ghost suppression and change detection |
| `Uf2Block`, `Uf2`, `Uf2Families`, `IntelHex`, `HexFiles` | the UF2 converter in both directions, for files of any origin, and from Intel HEX, from the records of a file to its image |

Code that works in place is a class or a method over arrays, proved equal to functions on
values; the properties are lemmas about those functions, and invariants of the classes.
Times and positions are unbounded numbers that the code sees through their wrapped
differences. What the keymap answers (is this a tap key, is this layer transparent, what
does a callback return) is an arbitrary function, so that nothing depends on it.

## What does not hold, and exactly when it does

Some promises hold only under a condition. The model keeps the code as it is; a lemma says
exactly when the promise is kept, and a lemma or method shows a case in which it is not.

* **Order of one key's events.** The loop over the ring stops at the event that made a key
  a hold, so events can wait with no undecided key before them. A later event of a waiting
  key is then processed before it. A call keeps the order if and only if the new event has to
  queue or nothing of its key waits (`TapOrder.CallOrder`); a run is in order all along if
  and only if every offer meets that condition (`TapOrder.RunOrder`).
  `TapOrder.ReleaseBeforePress` is a run of four key events in which a key is released before
  it is pressed, on the layer that the press chose when it arrived
  (`TapLayerRuns.EarlyReleaseOnLayerOfArrival`).
* **A hold by timeout.** In the same situation a dual-role key that goes down becomes the
  tapping key over a ring of older events, and these are retried against it. The 16-bit
  difference of their times wraps, and the key is held in the call in which it arrives,
  although its term has just begun (`TapTiming.HeldOnArrival`). Every hold comes when the
  term of its key is over in true time, or by the options because of an event behind the key,
  if and only if no key meets an older ring in this way, or one of the same millisecond in
  which the options decide (`TapTiming.CallHoldsInTime`, `TapTiming.RunHoldsInTime`). A tap
  is ended by a release behind its press if and only if no key takes a release that waits
  already (`TapTiming.CallTapsInTime`).
* **Agreement of a release with its press.** A key pressed again after the quick-tap term
  becomes the tapping key without a search of the ring. If its release already waits there
  and a later release settles the key, the waiting one is the next that is delivered of it.
  It agrees with the press if and only if no dual-role press stands before it in the ring;
  otherwise it comes out as a hold, in this call or later (`TapFate.FateOfRelease`,
  `TapRestart.TapReleasedAsHold`). In runs that never come into that situation, which is
  what the condition `TapBalance.AnswersPress` excludes, presses and releases agree
  (`TapBalance.ReleaseMatchesPress`). That every tap is ended by some release holds without
  the condition (`TapAccounts.EveryTapAccounted`).
* **Layer of a delayed release.** A press stores its layer twice, when it arrives and when
  the resolver delivers it. In a run that keeps the order, a release is looked up on the
  layer of its own press if and only if the last press of the key before it, arrived or
  delivered, chose that layer; this can only fail when the key is pressed again while its
  release waits in the ring (`TapLayers.ReleaseOnLayerOfPress`). In
  `TapLayerRuns.KeyStaysPressed` a key pressed on layer 1 is released on layer 0.
* **Window writes and the keycode cache.** `dynamic_keymap_set_buffer` does not invalidate
  the cache, which agrees with the EEPROM afterwards if and only if the window does not
  change the bytes of the cached key (`Keymap.Store.SetBuffer`, `Keymap.Store.StaleAnswer`).
* **Macro buffer.** A send reads past the buffer if and only if the buffer is complete and
  holds exactly `id` zero bytes (`MacroSend.OverrunIff`). After a keycode or a delay an
  unknown code is sent with a stale byte (`MacroSend.KeycodeSentTwice`); the sends add up to
  the string if and only if that combination is absent (`MacroSend.SendsOwnString`).
* **Layer of a release.** The layer is kept for each position. Two keys swapped onto one
  position share it, and a release has the layer of its own press if and only if the last
  press at the position chose that layer (`PressRelease.ReleaseFollowsPress`,
  `PressRelease.SwappedOntoAnother`).
* **Key events of the matrix.** Changes seen while key presses are not processed are
  remembered without an event. The key events go on replaying to the remembered matrix if and
  only if that does not happen (`Matrix.Scanner.MatrixTask`, `Matrix.LostPress`).
* **HEX files.** Blocks that could be packed read back if and only if the pages of the file
  never go back and its gaps stay within 10 MiB (`IntelHex.HexToBinary`,
  `IntelHex.GoesBack`). Packing fails if and only if a page address, a number of blocks or a
  tag does not fit 32 bits (`IntelHex.EncodeAll`).
* **Several families in a UF2 file.** The room in front of a block is filled with zeros also
  when the block belongs to a family that was not asked for. The image is exactly the
  payloads of the family if and only if no block leaves room (`Uf2Families.ExactlyPayloads`).
* **UF2 blocks with a bad magic number** are meant to be skipped. The message for them adds a
  string to a number, so that the first of them ends the conversion with a type error
  (`Uf2.BadMagicEnds`, `Uf2.ZerosBeforeFile`). The other rejections of `convert_from_uf2`
  build their messages in the same way; they end the conversion as intended.

Order and agreement are stated for runs in which the ring does not overflow and every key
alternates between press and release. Agreement and timing ask that time does not go back
and that no event waits until the 16-bit timer comes round (`TapBalance.Timely`,
`TapTiming.Current`), timing also that no event is reported once more, at the same time, while
it waits. An overflow drops the pending events, which `TapLedger.RunConserves`
counts. The start address that the HEX direction reports is the first data address, the one
that the binary direction reports its page.

## Model

| member | source | states |
|---|---|---|
| `TapResolver.Resolver.constructor` | keyboard/qmk/firmware/quantum/action_tapping.c:62-65 | the machine starts with no tapping key, an empty ring and nothing delivered |
| `TapResolver.Resolver.ActionTappingProcess` | keyboard/qmk/firmware/quantum/action_tapping.c:80-113 | one call, with its retry loop over the ring, is the specified step of the machine, for any keymap and any event |
| `TapResolver.Resolver.ProcessTapping` | keyboard/qmk/firmware/quantum/action_tapping.c:166-433 | every exit has the specified effect on tapping key, record, ring and deliveries |
| `TapResolver.Resolver.ProcessPendingTap` | keyboard/qmk/firmware/quantum/action_tapping.c:196-346 | the exits while a tap is undecided |
| `TapResolver.Resolver.ProcessReleasedTap` | keyboard/qmk/firmware/quantum/action_tapping.c:383-433 | the exits after the tapping key was released |
| `TapResolver.Resolver.StartNewTap` | keyboard/qmk/firmware/quantum/action_tapping.c:404-410 | a key becomes the tapping key and its release is looked for at once |
| `TapResolver.Resolver.BufferEnq` | keyboard/qmk/firmware/quantum/action_tapping.c:439-455 | ticks are never queued; a full ring refuses; otherwise the event goes to the end |
| `TapResolver.Resolver.BufferClear` | keyboard/qmk/firmware/quantum/action_tapping.c:461-464 | nothing waits afterwards |
| `TapResolver.Resolver.BufferTyped` | keyboard/qmk/firmware/quantum/action_tapping.c:470-477 | true exactly when the opposite transition of the key waits |
| `TapResolver.Resolver.ScanTap` | keyboard/qmk/firmware/quantum/action_tapping.c:494-521 | the first waiting release within the term settles the tapping key, and only that release is marked |
| `TapResolver.Resolver.RetryHead` | keyboard/qmk/firmware/quantum/action_tapping.c:101-109 | the oldest waiting event is retried and leaves the ring only if it was processed |
| `TapResolver.Resolver.ProcessWaiting` | keyboard/qmk/firmware/quantum/action_tapping.c:101-109 | the loop over the ring stops at the first event that has to stay |
| `TapLedger.RunConserves` | keyboard/qmk/firmware/quantum/action_tapping.c:80-113 | over every run, overflow included: events offered = delivered once + waiting + undecided + dropped by overflow |
| `TapLedger.CallConserves` | keyboard/qmk/firmware/quantum/action_tapping.c:80-113 | each call keeps that balance |
| `TapOrder.PerKeyOrder` | keyboard/qmk/firmware/quantum/action_tapping.c:80-113 | in orderly runs each key comes out in the order it went in: delivered events, then pending ones |
| `TapOrder.CallOrder` | keyboard/qmk/firmware/quantum/action_tapping.c:80-113 | a call keeps the order of its key if and only if the event queues or nothing of its key waits |
| `TapOrder.RunOrder` | keyboard/qmk/firmware/quantum/action_tapping.c:80-113 | a run in which keys alternate and the ring does not overflow is in order all along if and only if every offer meets that condition |
| `TapOrder.AcceptOrder` | keyboard/qmk/firmware/quantum/action_tapping.c:80-95 | the same for the first half of the call: the condition is exact |
| `TapOrder.WhileUndecided` | keyboard/qmk/firmware/quantum/action_tapping.c:196-292 | while a tap stays undecided only a release of another key, whose press does not wait, is delivered |
| `TapOrder.OvertakingRelease` | keyboard/qmk/firmware/quantum/action_tapping.c:241-269 | such a release follows a press that was delivered, and nothing of its key is pending |
| `TapOrder.ReleaseBeforePress` | keyboard/qmk/firmware/quantum/action_tapping.c:101-109 | the excluded case happens: four key events after which a key is released before it is pressed |
| `TapBalance.ReleaseMatchesPress` | keyboard/qmk/firmware/quantum/action_tapping.c:80-113 | in fair runs the next delivery of a pressed key is its release with the same tap count |
| `TapBalance.OpenTapAccounted` | keyboard/qmk/firmware/quantum/action_tapping.c:494-521 | until then a single tap has its marked release waiting next, and a repeated tap is the tapping key |
| `TapBalance.AcceptBalance` | keyboard/qmk/firmware/quantum/action_tapping.c:203-213 | accepting an event keeps the invariant of the ring (the log agrees, and a tap without its release has it waiting marked as the next event of its key) if and only if a release that settles its key is the next event of that key |
| `TapBalance.CallSound` | keyboard/qmk/firmware/quantum/action_tapping.c:80-113 | a whole call keeps order and agreement under those conditions |
| `TapAccounts.EveryTapAccounted` | keyboard/qmk/firmware/quantum/action_tapping.c:203-213 | in every run without an overflow, in whatever order events are offered, each press delivered with a count is still held with it, or a later release with that count was delivered, or one waits |
| `TapAccounts.TurnAccounted` | keyboard/qmk/firmware/quantum/action_tapping.c:166-433 | every exit keeps that account |
| `TapRestart.TapReleasedAsHold` | keyboard/qmk/firmware/quantum/action_tapping.c:401-403 | the excluded case happens: a key pressed as a tap and released as a hold, after a restart that does not search the ring |
| `TapFate.OutrunRelease` | keyboard/qmk/firmware/quantum/action_tapping.c:203-213 | when a release settles its key while an older release waits, the older one is the next delivery of the key in this call: with the count of the press if it is reached before a dual-role press of the ring, and otherwise it is delivered as a hold or waits unmarked |
| `TapFate.CallStranded` | keyboard/qmk/firmware/quantum/action_tapping.c:80-113 | a later call keeps such a release waiting unmarked as the next event of its key, or delivers it as a hold |
| `TapFate.FateOfRelease` | keyboard/qmk/firmware/quantum/action_tapping.c:80-113 | over the whole rest of an orderly run: the next delivery of the key is the older release, with count 1 if and only if it was reached, and 0 otherwise |
| `TapDecisions.RunReasoned` | keyboard/qmk/firmware/quantum/action_tapping.c:296-399 | over every run: no count on a press that passes undecided, at most one on a settled key; a count of two or more only as a quick repetition of a delivered, uninterrupted tap of the key; a release is made up only to end such a repetition |
| `TapReasons.CallReasons` | keyboard/qmk/firmware/quantum/action_tapping.c:197-292 | a key that a call settles has its reason at a place behind its own among the events in the ring and the one that arrives: held by one that came too late, by the tap or by the press of another key, tapped by its own release in time; the exceptions are a key that jumped over the ring, a key reported pressed twice in a row, and an offer out of order |
| `TapReasons.CallWitnessed` | keyboard/qmk/firmware/quantum/action_tapping.c:241-416 | what a call passes on undecided, repeats or makes up comes from the ring or the arriving event; what passes as a press is no dual-role press |
| `TapReasons.RunPrompted` | keyboard/qmk/firmware/quantum/action_tapping.c:271-286 | with hold-on-other-key-press no press waits between calls, and an undecided key is the last event of its position |
| `TapReasons.DecisionsJustified` | keyboard/qmk/firmware/quantum/action_tapping.c:80-113 | every delivery of every run is explained in this way by one call, from events offered by then |
| `TapTiming.CallHoldsInTime` | keyboard/qmk/firmware/quantum/action_tapping.c:334-342 | a call delivers only holds whose term is over in unwrapped time, or that the options demand by an event behind the key, if and only if no key becomes the tapping key over an older ring, or over one of the same millisecond that decides by the options |
| `TapTiming.CallTapsInTime` | keyboard/qmk/firmware/quantum/action_tapping.c:494-521 | a call delivers only taps whose own release, behind the press, came within the term in unwrapped time, if and only if no arriving key takes a release that waits already |
| `TapTiming.RunHoldsInTime` | keyboard/qmk/firmware/quantum/action_tapping.c:80-113 | the same for all calls of a run in which time goes on and no event is reported again while it waits, whatever the order in which events are offered |
| `TapTiming.CallOnClock` | keyboard/qmk/firmware/quantum/action_tapping.c:80-113 | the ring stays in order of time, behind the undecided key, also when the condition fails |
| `TapTiming.HeldOnArrival` | keyboard/qmk/firmware/quantum/action_tapping.c:404-410 | the excluded case happens: with default options a key is held in the call in which it arrives, 0 ms after its press |
| `TapProgress.ComesToRest` | keyboard/qmk/firmware/quantum/action_tapping.c:97-109 | from any reachable state at most as many ticks as events wait (so at most 7) empty the ring or find a tap undecided |
| `TapProgress.TickShrinks` | keyboard/qmk/firmware/quantum/action_tapping.c:101-109 | a tick takes at least one event out of a ring that nothing holds back |
| `TapArrivals.SettledOnArrival` | keyboard/qmk/firmware/quantum/action_tapping.c:196-292 | the call that brings the deciding event decides, first of all: the key is a tap by its own release in time; a hold by a late event, by the release of another key whose press waits, or by a press, as the options have it; the release of a key pressed before goes out ahead of it unless it is retained |
| `TapArrivals.NestedTapHolds` | keyboard/qmk/firmware/quantum/action_tapping.c:219-236 | over every run with permissive hold: an undecided key is held in the call that brings the release of another key whose press was offered and is not delivered |
| `TapArrivals.WaitsBehind` | keyboard/qmk/firmware/quantum/action_tapping.c:241-291 | when neither the arriving event nor the oldest waiting one decides anything, nothing is delivered, and the event waits last or, with a full ring, everything is dropped |
| `TapArrivals.OrdinaryAtOnce` | keyboard/qmk/firmware/quantum/action_tapping.c:171-188 | with no key undecided an event that has no part in a tap is delivered at once, as it is |
| `TapArrivals.TapReleasedAtOnce` | keyboard/qmk/firmware/quantum/action_tapping.c:295-301 | the release of a tapped key is delivered at once with the tap of its press |
| `TapArrivals.DualRoleTakesOver` | keyboard/qmk/firmware/quantum/action_tapping.c:302-322 | a dual-role press becomes the undecided key, behind a made-up release if a repetition is open; over a ring in which its release waits in time it is a tap at once |
| `TapArrivals.PressedAgainUndecided` | keyboard/qmk/firmware/quantum/action_tapping.c:401-403 | pressed again within the term, but not as a repetition, the released key becomes the undecided key and nothing is delivered |
| `TapArrivals.TickIsQuiet` | keyboard/qmk/firmware/quantum/action_tapping.c:423-430 | with no key undecided and nothing waiting a tick delivers nothing; it forgets a released key after its term |
| `TapArrivals.RunInterruptedIff` | keyboard/qmk/firmware/quantum/action_tapping.c:271-273 | over every run: an undecided key counts as interrupted if and only if a press arrived while it was undecided or the oldest event behind it is a press |
| `TapRepeats.QuickPressRepeats` | keyboard/qmk/firmware/quantum/action_tapping.c:389-400 | over every run, told from offers and deliveries: when nothing waits and the last decision was a tap, released in time, with no press since, nothing late and nothing dropped, the quick press of the same key is delivered by its call at once, counted once more up to 15, and the call delivers nothing else |
| `TapRepeats.RepeatsIffDue` | keyboard/qmk/firmware/quantum/action_tapping.c:389-416 | and only then: with another press in between, a late event, or a press that is not quick, the call does not begin with a repetition |
| `TapRepeats.OpenTapReleased` | keyboard/qmk/firmware/quantum/action_tapping.c:295-301 | over every run the release of a tap that is still open is delivered at once with the count of its press |
| `TapRepeats.SecondTapRepeats` | keyboard/qmk/firmware/quantum/action_tapping.c:389-400 | the case happens: tapped for 100 ms and pressed again after 50 ms, a key comes out with count 2 |
| `Eeprom.Device.constructor` | keyboard/qmk/firmware/drivers/eeprom/eeprom_i2c.h:96-117 | a device of so many bytes, in whole pages, with addresses that reach all of them |
| `Eeprom.Device.WriteBlock` | keyboard/qmk/firmware/drivers/eeprom/eeprom_i2c.c:97-140 | the memory is as after one flat write although every transaction stays inside a page of a device that wraps within pages |
| `Eeprom.Device.WritePage` | keyboard/qmk/firmware/drivers/eeprom/eeprom_i2c.c:107-133 | one turn writes as much as the page has room for, inside that page |
| `Eeprom.Device.SendChunk` | keyboard/qmk/firmware/drivers/eeprom/eeprom_i2c.c:114-127 | one packet writes its piece of the block |
| `Eeprom.PageProgramFlat` | keyboard/qmk/firmware/drivers/eeprom/eeprom_i2c.c:107-127 | a page program that does not cross the page end is a flat write |
| `Eeprom.FillTargetAddress` | keyboard/qmk/firmware/drivers/eeprom/eeprom_i2c.c:48-54 | the packet begins with the address, most significant byte first |
| `Eeprom.AddressRoundTrip` | keyboard/qmk/firmware/drivers/eeprom/eeprom_i2c.c:48-54 | the device reads back the address that was meant |
| `Eeprom.AddressDigit` | keyboard/qmk/firmware/drivers/eeprom/eeprom_i2c.c:48-54 | byte i of an address is its digit to base 256, counted from the top |
| `Eeprom.Device.Erase` | keyboard/qmk/firmware/drivers/eeprom/eeprom_i2c.c:65-79 | every byte becomes zero, page by page |
| `Eeprom.Device.ReadBlock` | keyboard/qmk/firmware/drivers/eeprom/eeprom_i2c.c:81-86 | the bytes from the address that was sent to the device |
| `Eeprom.AddressTruncates` | keyboard/qmk/firmware/drivers/eeprom/eeprom_i2c.c:48-54 | the device reads an address that is too wide truncated to its width |
| `Eeprom.Device.ReadByte` | keyboard/qmk/firmware/drivers/eeprom/eeprom_driver.c:22-26 | the byte at an address |
| `Eeprom.Device.ReadWord` | keyboard/qmk/firmware/drivers/eeprom/eeprom_driver.c:28-32 | the two bytes at an address, low byte first |
| `Eeprom.Device.UpdateBlock` | keyboard/qmk/firmware/drivers/eeprom/eeprom_driver.c:52-58 | the memory is the same as after an unconditional write, and the device is left alone when nothing changes |
| `Eeprom.Device.UpdateByte` | keyboard/qmk/firmware/drivers/eeprom/eeprom_driver.c:60-65 | the memory is the same as after an unconditional write, and the device is left alone when nothing changes |
| `Eeprom.Device.UpdateWord` | keyboard/qmk/firmware/drivers/eeprom/eeprom_driver.c:67-72 | the memory is the same as after an unconditional write, low byte first; the device is left alone when nothing changes |
| `KeymapLayout.Layout.SlotOfKey` | keyboard/qmk/firmware/quantum/dynamic_keymap.c:115-118 | the slot of a key decodes to that key |
| `KeymapLayout.Layout.KeyOfSlot` | keyboard/qmk/firmware/quantum/dynamic_keymap.c:115-118 | every slot belongs to a key of the keymap |
| `KeymapLayout.Layout.KeyAddressIsSlot` | keyboard/qmk/firmware/quantum/dynamic_keymap.c:115-118 | the address arithmetic of the code is two bytes for each slot |
| `KeymapLayout.Layout.KeysDisjoint` | keyboard/qmk/firmware/quantum/dynamic_keymap.c:115-118 | two keys share no byte |
| `KeymapLayout.Layout.EveryByteHasKey` | keyboard/qmk/firmware/quantum/dynamic_keymap.c:115-118 | every byte of the region is a byte of a key: layer x row x column x half is a bijection |
| `KeymapLayout.Layout.EncoderAddressIsSlot` | keyboard/qmk/firmware/quantum/dynamic_keymap.c:153-155 | the same for encoders and directions |
| `KeymapLayout.Layout.KeyOfEncoderSlot` | keyboard/qmk/firmware/quantum/dynamic_keymap.c:153-155 | every encoder slot belongs to an encoder and a direction |
| `KeymapLayout.Layout.KeysFollow` | keyboard/qmk/firmware/quantum/dynamic_keymap.c:115-118 | keys lie two bytes apart, row by row and layer by layer, without a gap up to the encoders |
| `KeymapLayout.Layout.EncodersFollow` | keyboard/qmk/firmware/quantum/dynamic_keymap.c:71-98 | encoders follow with four bytes each, clockwise first, then the macros up to the last byte in use |
| `Keymap.SetChangesOneKey` | keyboard/qmk/firmware/quantum/dynamic_keymap.c:120-150 | setting a keycode changes what is read for that key and for no other |
| `Keymap.SetStaysInRegion` | keyboard/qmk/firmware/quantum/dynamic_keymap.c:135-150 | no byte outside the keymap region changes |
| `Keymap.WindowShowsKeycodes` | keyboard/qmk/firmware/quantum/dynamic_keymap.c:205-218 | a window shows the big-endian keycodes byte for byte, and zeros past the end |
| `Keymap.WindowRoundTrip` | keyboard/qmk/firmware/quantum/dynamic_keymap.c:205-231 | what is written through a window is read back through any window |
| `Keymap.CachedKeyAfterWindow` | keyboard/qmk/firmware/quantum/dynamic_keymap.c:220-249 | a window write leaves a cached keycode right if and only if it does not change the bytes of that key |
| `Keymap.Store.constructor` | keyboard/qmk/firmware/quantum/dynamic_keymap.c:104-109 | no key is cached at first |
| `Keymap.Store.GetKeycode` | keyboard/qmk/firmware/quantum/dynamic_keymap.c:120-133 | the keycode in the EEPROM, or none for a key that does not exist |
| `Keymap.Store.SetKeycode` | keyboard/qmk/firmware/quantum/dynamic_keymap.c:135-150 | stores the keycode and keeps the cache in agreement with the EEPROM |
| `Keymap.Store.KeycodeAt` | keyboard/qmk/firmware/quantum/dynamic_keymap.c:233-249 | the lookup answers what is cached, which is what the EEPROM holds as long as the cache agrees with it |
| `Keymap.Store.GetBuffer` | keyboard/qmk/firmware/quantum/dynamic_keymap.c:205-218 | a window read of any offset and size |
| `Keymap.Store.SetBuffer` | keyboard/qmk/firmware/quantum/dynamic_keymap.c:220-231 | a window write of any offset and size, clipped to the region; the cache agrees with the EEPROM afterwards if and only if the bytes of the cached key did not change |
| `Keymap.Store.StaleAnswer` | keyboard/qmk/firmware/quantum/dynamic_keymap.c:220-249 | the exception happens: after a keycode was replaced through a window the lookup answers the old one |
| `Keymap.Store.GetEncoder` | keyboard/qmk/firmware/quantum/dynamic_keymap.c:157-164 | the keycode of an encoder direction |
| `Keymap.Store.SetEncoder` | keyboard/qmk/firmware/quantum/dynamic_keymap.c:166-172 | stores the keycode of an encoder direction |
| `Keymap.Store.Reset` | keyboard/qmk/firmware/quantum/dynamic_keymap.c:175-203 | the whole reset, byte write by byte write, with an empty cache afterwards |
| `Keymap.ResetKeys` | keyboard/qmk/firmware/quantum/dynamic_keymap.c:175-203 | after the reset every key holds its keycode from flash |
| `Keymap.ResetEncoderKeys` | keyboard/qmk/firmware/quantum/dynamic_keymap.c:175-203 | and so does every encoder direction |
| `MacroSend.SendById` | keyboard/qmk/firmware/quantum/dynamic_keymap.c:303-386 | the parser over the EEPROM sends what the specification of the macro buffer says |
| `MacroSend.SkipToId` | keyboard/qmk/firmware/quantum/dynamic_keymap.c:317-331 | the search for the start of a string |
| `MacroSend.ReadToken` | keyboard/qmk/firmware/quantum/dynamic_keymap.c:338-383 | one step of the parser, in its scratch array of 8 bytes |
| `MacroSend.ReadDelay` | keyboard/qmk/firmware/quantum/dynamic_keymap.c:360-382 | a delay is read to its end mark, aborting when it is too long |
| `MacroSend.OverrunIff` | keyboard/qmk/firmware/quantum/dynamic_keymap.c:303-386 | a read past the buffer happens exactly when the buffer is complete and holds precisely id zero bytes |
| `MacroSend.PlayStopsAtZero` | keyboard/qmk/firmware/quantum/dynamic_keymap.c:333-385 | nothing behind the terminator is read or sent |
| `MacroSend.PlayTokens` | keyboard/qmk/firmware/quantum/dynamic_keymap.c:333-385 | a string made of tokens is sent token by token |
| `MacroSend.TokensPlayed` | keyboard/qmk/firmware/quantum/dynamic_keymap.c:333-385 | only strings made of tokens are sent to their end |
| `MacroSend.PlaysAsFar` | keyboard/qmk/firmware/quantum/dynamic_keymap.c:333-385 | whatever the buffer holds: the tokens that begin the text are sent one by one as far as there are any, nothing else is, and it ends well exactly at a zero |
| `MacroSend.SendsBehindZeros` | keyboard/qmk/firmware/quantum/dynamic_keymap.c:303-386 | nothing is sent unless the last byte is zero and there are `id` zeros; otherwise the tokens behind the `id`-th zero |
| `MacroSend.SendsOwnString` | keyboard/qmk/firmware/quantum/dynamic_keymap.c:303-386 | each id sends its own string, and the sends add up to it if and only if no unknown code follows a keycode or a delay |
| `MacroSend.KeycodeSentTwice` | keyboard/qmk/firmware/quantum/dynamic_keymap.c:338-384 | the exception happens: a stale scratch byte sends a keycode once more |
| `ViaReset.Via.EepromIsValid` | keyboard/qmk/firmware/quantum/via.c:62-69 | true exactly when the EEPROM holds the magic of this build |
| `ViaReset.Via.EepromSetValid` | keyboard/qmk/firmware/quantum/via.c:73-82 | writes the magic, or bytes that are not the magic |
| `ViaReset.Via.Init` | keyboard/qmk/firmware/quantum/via.c:93-104 | a start re-initialises exactly when the magic is not valid |
| `ViaReset.Via.InitVia` | keyboard/qmk/firmware/quantum/via.c:106-117 | re-initialising makes the specified byte writes in order: magic off, options, keymap, macros, magic on |
| `ViaReset.Via.GetLayoutOptions` | keyboard/qmk/firmware/quantum/via.c:121-131 | the options, most significant byte first |
| `ViaReset.Via.SetLayoutOptions` | keyboard/qmk/firmware/quantum/via.c:135-144 | the same bytes written in reverse order |
| `ViaReset.OptionsStored` | keyboard/qmk/firmware/quantum/via.c:135-144 | options are stored most significant byte first |
| `ViaReset.OptionsReadBack` | keyboard/qmk/firmware/quantum/via.c:121-144 | options read back as written, truncated to their width |
| `ViaReset.Via.MacroReset` | keyboard/qmk/firmware/quantum/dynamic_keymap.c:294-301 | the macro buffer becomes zeros |
| `ViaReset.MagicDuringInit` | keyboard/qmk/firmware/quantum/via.c:62-117 | cut after any prefix of its writes, re-initialising leaves nothing changed, no valid magic, or everything done |
| `ViaReset.InitContent` | keyboard/qmk/firmware/quantum/via.c:106-117 | done, it leaves options, keymap, encoder map and macros all reset |
| `ViaReset.RunRefines` | keyboard/qmk/firmware/quantum/via.c:62-117 | over any run of interrupted and completed starts, resets and keycode edits, the bytes refine a machine in which re-initialising is one indivisible step |
| `ViaReset.UntouchedOrReset` | keyboard/qmk/firmware/quantum/via.c:62-117 | without edits the memory is always untouched, known to be bad, or completely reset |
| `ViaReset.CompletedBoot` | keyboard/qmk/firmware/quantum/via.c:93-117 | a completed start leaves a valid magic over untouched or completely reset data |
| `ViaBuilds.MagicSpellsDay` | keyboard/qmk/firmware/quantum/via.c:63-66 | the magic is the decimal digits of year, month and day of the build, two to a byte, each as 16 times tens plus units |
| `ViaBuilds.MagicTellsDays` | keyboard/qmk/firmware/quantum/via.c:63-66 | the magics of two builds are equal if and only if those six digits agree |
| `ViaBuilds.StartOfAnotherBuild` | keyboard/qmk/firmware/quantum/via.c:93-117 | a history over two builds with the magic at the same address: after any run of one build that ends with a completed start, a completed start of the other leaves the memory as it is if and only if the digits agree, and the reset content of the other build otherwise |
| `DynamicMacro.Recorder.ProcessRecord` | keyboard/qmk/firmware/quantum/dynamic_macro.h:154-260 | every key in every mode does what the recording machine over two abstract macros does |
| `DynamicMacro.Recorder.RecordKey` | keyboard/qmk/firmware/quantum/dynamic_macro.h:104-122 | a key is taken unless it is a leading release or the two macros would meet |
| `DynamicMacro.Recorder.RecordEnd` | keyboard/qmk/firmware/quantum/dynamic_macro.h:128-142 | trailing presses are cut off |
| `DynamicMacro.Recorder.Play` | keyboard/qmk/firmware/quantum/dynamic_macro.h:77-93 | playing emits the stored records from either end |
| `DynamicMacro.Session` | keyboard/qmk/firmware/quantum/dynamic_macro.h:154-260 | a recording saves trim-trailing-presses(first capacity events of drop-leading-releases(recorded)) and leaves the other macro alone |
| `DynamicMacro.TakenSoFar` | keyboard/qmk/firmware/quantum/dynamic_macro.h:104-122 | at every moment of a recording what was taken is the beginning of that, as far as there is room |
| `DynamicMacro.RecordThenPlay` | keyboard/qmk/firmware/quantum/dynamic_macro.h:154-260 | after a session the playback key emits exactly what was saved, and the other key the other macro |
| `DynamicMacro.ReactionIs` | keyboard/qmk/firmware/quantum/dynamic_macro.h:201-259 | for every mode, key and record: an event goes on if and only if it is neither a stop or playback key while recording nor the release of a start or playback key otherwise; something is played if and only if a playback key with a macro is released while nothing is recorded |
| `DynamicMacro.RunPasses` | keyboard/qmk/firmware/quantum/dynamic_macro.h:154-260 | over any run the events passed on are exactly the offered ones without those, and what is played is what those releases call for |
| `DeferredExec.Executor.constructor` | keyboard/qmk/firmware/quantum/deferred_exec.c:157-158 | the table starts with free slots |
| `DeferredExec.Executor.TokenCanBeUsed` | keyboard/qmk/firmware/quantum/deferred_exec.c:18-28 | a token is usable exactly when it is not zero and no slot holds it |
| `DeferredExec.Executor.AllocateToken` | keyboard/qmk/firmware/quantum/deferred_exec.c:30-40 | the wrapping search ends within one round and fails exactly when all 255 tokens are held; it finds the next unused token after the last one, counting around |
| `DeferredExec.TokenLeft` | keyboard/qmk/firmware/quantum/deferred_exec.c:30-40 | with a free slot and at most 255 slots a token is left |
| `DeferredExec.Executor.Defer` | keyboard/qmk/firmware/quantum/deferred_exec.c:46-73 | succeeds exactly when it should, in the first free slot, under a token nobody holds; live tokens stay distinct |
| `DeferredExec.Executor.Extend` | keyboard/qmk/firmware/quantum/deferred_exec.c:75-93 | gives the slot of a live token a new deadline |
| `DeferredExec.Executor.Cancel` | keyboard/qmk/firmware/quantum/deferred_exec.c:95-116 | frees the slot of a live token |
| `DeferredExec.Executor.Task` | keyboard/qmk/firmware/quantum/deferred_exec.c:118-151 | a pass runs the due slots in order and requeues or frees them; every slot keeps its deadline and its pace |
| `DeferredExec.SignedDifference` | keyboard/qmk/firmware/quantum/deferred_exec.c:122-130 | a wrapped difference read as signed is the true one within half the period |
| `DeferredExec.FiresAtDeadline` | keyboard/qmk/firmware/quantum/deferred_exec.c:129-132 | a pass runs a slot exactly when its unwrapped deadline has come, and tells the callback that deadline |
| `DeferredExec.RunsOnce` | keyboard/qmk/firmware/quantum/deferred_exec.c:126-132 | once, and no slot that is not due |
| `DeferredExec.RunsInSlotOrder` | keyboard/qmk/firmware/quantum/deferred_exec.c:126-132 | the calls of a pass are those of the due slots in the order of the table, each with its own trigger time and seeing what ran before it |
| `DeferredExec.SurvivesPass` | keyboard/qmk/firmware/quantum/deferred_exec.c:134-147 | a live slot stays live exactly when its deadline is still to come or its callback asked to be run again; it keeps its callback, and otherwise its slot is free |
| `DeferredExec.PassDeadline` | keyboard/qmk/firmware/quantum/deferred_exec.c:134-140 | a requeued slot moves by exactly the delay its callback returned |
| `DeferredExec.PassKeepsDistinct` | keyboard/qmk/firmware/quantum/deferred_exec.c:126-151 | live tokens stay distinct over a pass |
| `DeferredExec.PollingIndependent` | keyboard/qmk/firmware/quantum/deferred_exec.c:134-140 | the intended times depend on the first deadline and the returned delays only, not on when the table was polled |
| `PressMemory.UpdateSourceLayersCache` | keyboard/qmk/firmware/quantum/action_layer.c:232-238 | stores a layer in one entry; all other entries keep theirs although the bytes are shared |
| `PressMemory.ReadSourceLayersCache` | keyboard/qmk/firmware/quantum/action_layer.c:244-254 | reads the layer of an entry bit by bit |
| `PressMemory.SpelledBits` | keyboard/qmk/firmware/quantum/action_layer.c:244-254 | the layer read has exactly the bits of the slices |
| `PressMemory.SlicesExchanged` | keyboard/qmk/firmware/quantum/action_layer.c:232-238 | the xor update replaces one bit in each slice |
| `PressMemory.ShouldSwapHands` | keyboard/qmk/firmware/quantum/action.c:146-152 | a press asks the toggle, a release asks the memory |
| `PressMemory.SetSwapHandsState` | keyboard/qmk/firmware/quantum/action.c:154-163 | one bit changes |
| `PressRelease.Keyboard.constructor` | keyboard/qmk/firmware/quantum/action_layer.c:219-226 | nothing is remembered at first |
| `PressRelease.Keyboard.ProcessHandSwap` | keyboard/qmk/firmware/quantum/action.c:185-214 | the position an event is swapped to, for keys and for encoders, and what is remembered of it |
| `PressRelease.Keyboard.StoreLayerOf` | keyboard/qmk/firmware/quantum/action_layer.c:260-271 | the layer goes to the entry of the key, if it has one |
| `PressRelease.Keyboard.StoredLayerOf` | keyboard/qmk/firmware/quantum/action_layer.c:277-289 | the layer remembered for a key, or 0 |
| `PressRelease.Keyboard.LayerSwitchGetLayer` | keyboard/qmk/firmware/quantum/action_layer.c:323-342 | the highest layer below the limit that is on in the layer state or in the default layer state and not transparent for the key, or 0 |
| `PressRelease.TopLayer` | keyboard/qmk/firmware/quantum/action_layer.c:323-342 | every active layer above the chosen one is transparent |
| `PressRelease.TopIsHighest` | keyboard/qmk/firmware/quantum/action_layer.c:328-339 | of the two words together it is the highest layer on in either of them |
| `PressRelease.Keyboard.StoreOrGetLayer` | keyboard/qmk/firmware/quantum/action_layer.c:299-317 | a press chooses and stores, a release recalls, the bypass does neither; what is chosen is that highest layer |
| `PressRelease.Keyboard.Handle` | keyboard/qmk/firmware/quantum/action.c:89-94 | both stages in a row are one step of the run below |
| `PressRelease.Keyboard.MetFits` | keyboard/qmk/firmware/quantum/action_layer.c:323-342 | every event that the keyboard meets is one of the runs below, with layers that can be numbered |
| `PressRelease.Keyboard.TopFits` | keyboard/qmk/firmware/quantum/action_layer.c:323-342 | a chosen layer survives storing in its few bits |
| `PressRelease.PositionFollowsPress` | keyboard/qmk/firmware/quantum/action.c:146-214 | over any run a release is swapped exactly if the last press that shares its bit was |
| `PressRelease.LayerFollowsEntry` | keyboard/qmk/firmware/quantum/action_layer.c:299-317 | over any run a release gets the layer of the last press resolved to its entry, or 0 |
| `PressRelease.BypassOnTop` | keyboard/qmk/firmware/quantum/action_layer.c:293-298 | an event past the cache is looked up on the layer of the moment |
| `PressRelease.NeverPressed` | keyboard/qmk/firmware/quantum/action.c:146-152 | a release without any press that shares its bit is not swapped |
| `PressRelease.ReleaseFollowsPress` | keyboard/qmk/firmware/quantum/action_layer.c:292-317 | over any interleaving a key is released at the position it was pressed at, on the layer that the last press at that position chose: its own layer if and only if that press chose the same, and whenever no other key was pressed there |
| `PressRelease.ClickResolvedAlike` | keyboard/qmk/firmware/quantum/encoder.c:176-187 | the press and the release of an encoder click are resolved alike, at the same position and layer |
| `PressRelease.SwappedOntoAnother` | keyboard/qmk/firmware/quantum/action_layer.c:260-264 | two keys at one position share an entry: one can take the layer of the other |
| `PressRelease.Board.MatrixCellsApart` | keyboard/qmk/firmware/quantum/action_layer.c:261-262 | two matrix keys never share an entry |
| `TapLayers.ReleaseLookedUp` | keyboard/qmk/firmware/quantum/action_layer.c:299-312 | a release of a matrix key is looked up on the layer that the last press of its key chose, whether delivered by then or only arrived, or on layer 0 if there was none |
| `TapLayers.TraceOfRun` | keyboard/qmk/firmware/quantum/action.c:119-123 | arrivals and deliveries meet the cache in the order of the calls: in each call the arriving event first, then what the call delivers |
| `TapLayers.ReleaseOnLayerOfPress` | keyboard/qmk/firmware/quantum/quantum.c:225-237 | in orderly runs a delivered release is looked up on the layer of its own press if and only if the last press of its key before it chose that layer, which is its own press or one that arrived while the release waited in the ring; certainly if none did |
| `TapLayerRuns.KeyStaysPressed` | keyboard/qmk/firmware/quantum/quantum.c:231-233 | the other case happens: an orderly run in which a key pressed on layer 1 is released on layer 0 |
| `TapLayerRuns.EarlyReleaseOnLayerOfArrival` | keyboard/qmk/firmware/quantum/quantum.c:231-233 | a release that comes out before its press is looked up on the layer that the press chose when it arrived; the press then on the one of its delivery |
| `MatrixRow.PopcountMoreThanOne` | keyboard/qmk/firmware/quantum/keyboard.c:227-230 | true exactly when two bits are set |
| `Matrix.GetRealKeys` | keyboard/qmk/firmware/quantum/keyboard.c:215-225 | keeps exactly the pressed columns that have a key |
| `Matrix.HasGhostInRow` | keyboard/qmk/firmware/quantum/keyboard.c:232-254 | true exactly when another row shares two columns with real keys pressed in both |
| `Matrix.GhostSymmetric` | keyboard/qmk/firmware/quantum/keyboard.c:232-254 | the row that makes a row a ghost is a ghost itself |
| `Matrix.Scanner.MatrixTask` | keyboard/qmk/firmware/quantum/keyboard.c:504-557 | a tick when nothing changed and the time has, and otherwise events of the changed columns of unghosted rows in order; the switch events always replay to the remembered matrix, and the key events go on doing so if and only if no change was kept from them |
| `Matrix.KeptBack` | keyboard/qmk/firmware/quantum/keyboard.c:545-553 | a log that replayed to the remembered matrix does not any more when changes are remembered without it |
| `Matrix.LostPress` | keyboard/qmk/firmware/quantum/keyboard.c:545-553 | the case happens: one press while key presses are not processed |
| `Matrix.TaskChangesAre` | keyboard/qmk/firmware/quantum/keyboard.c:531-551 | every event of a task is a change of an unghosted row |
| `Matrix.ReportedIff` | keyboard/qmk/firmware/quantum/keyboard.c:528-551 | a switch is reported, with its new state, if and only if it turned over and its row holds no two corners of a rectangle of four pressed keys, on a board that ghosts |
| `Matrix.Scanner.ProcessColumns` | keyboard/qmk/firmware/quantum/keyboard.c:540-551 | the changes of a row, in column order, go to the key and the switch events |
| `Matrix.Scanner.GenerateTickEvent` | keyboard/qmk/firmware/quantum/keyboard.c:488-495 | a tick whenever the 16-bit time has changed |
| `Matrix.TaskReplay` | keyboard/qmk/firmware/quantum/keyboard.c:528-554 | replaying the events of a task turns the old remembered matrix into the new one; every switch alternates, beginning with a press |
| `Matrix.TaskAscending` | keyboard/qmk/firmware/quantum/keyboard.c:531-551 | the events of a task come row by row and column by column, at most one for each switch |
| `Matrix.UnghostedUpToDate` | keyboard/qmk/firmware/quantum/keyboard.c:528-554 | rows that are not ghosts are remembered as read, ghosts as before |
| `Matrix.KeysOfEmitted` | keyboard/qmk/firmware/quantum/keyboard.c:545-547 | the key events are the switch events when key presses are processed |
| `Uf2Block.ParseSerialize` | keyboard/qmk/firmware/util/uf2conv.py:121-142 | a packed block unpacks to the same fields and data, and ends with the final magic number |
| `Uf2Block.BlockBegins` | keyboard/qmk/firmware/util/uf2conv.py:134-136 | a block begins with "UF2" and a line feed, so words are stored least significant byte first |
| `Uf2.BlockReadsBack` | keyboard/qmk/firmware/util/uf2conv.py:121-142 | the k-th block of a file reads back with its page, its number and the number of blocks |
| `Uf2.TagsHeld` | keyboard/qmk/firmware/util/uf2conv.py:149-166 | family and device type are in the flags, the header and an extension tag behind the page; the rest is zero |
| `Uf2.Converter.constructor` | keyboard/qmk/firmware/util/uf2conv.py:20-21 | the default start address and family |
| `Uf2.Converter.ConvertToUf2` | keyboard/qmk/firmware/util/uf2conv.py:121-142 | one block for each 256 bytes, or failure exactly when a number does not fit its field |
| `Uf2.Converter.ConvertFromUf2` | keyboard/qmk/firmware/util/uf2conv.py:37-109 | the scan over all blocks, with every rejection |
| `Uf2.Converter.TakeBlock` | keyboard/qmk/firmware/util/uf2conv.py:57-86 | padding and data of one block, and the bookkeeping of addresses and families |
| `Uf2.ScanEncoded` | keyboard/qmk/firmware/util/uf2conv.py:37-109 | blocks of this converter read back exactly when their addresses climb by no more than 10 MiB at a time |
| `Uf2.RoundTrip` | keyboard/qmk/firmware/util/uf2conv.py:37-142 | a file comes back filled up to whole blocks with its base address, for every file, base and family; asked for another family, nothing comes back |
| `Uf2.BadMagicEnds` | keyboard/qmk/firmware/util/uf2conv.py:52-54 | a block without the magic numbers ends the conversion, wherever it is |
| `Uf2.ZerosBeforeFile` | keyboard/qmk/firmware/util/uf2conv.py:52-54 | the case happens: a good file behind one block of zeros is not converted |
| `Uf2Families.AnyFile` | keyboard/qmk/firmware/util/uf2conv.py:37-109 | any file whose blocks have their magic numbers, with skipped blocks, several families and payloads of any size: it is converted exactly when no block to be flashed is at fault, the first fault is the error, and the image, its start and the case of several families are told from the list of blocks |
| `Uf2Families.ExactlyPayloads` | keyboard/qmk/firmware/util/uf2conv.py:68-80 | the image is exactly the payloads of the family asked for if and only if no block of the file leaves room, whichever family it belongs to |
| `IntelHex.ParseLine` | keyboard/qmk/firmware/util/uf2conv.py:177-181 | the bytes of a record line |
| `IntelHex.ParsePrinted` | keyboard/qmk/firmware/util/uf2conv.py:177-181 | every record printed in hexadecimal reads back, with either line end |
| `IntelHex.ConvertFromHexToUf2` | keyboard/qmk/firmware/util/uf2conv.py:168-205 | the records set bytes of blocks in order, and the blocks are packed |
| `IntelHex.SetBytes` | keyboard/qmk/firmware/util/uf2conv.py:193-200 | each byte goes to the current block or opens a new one |
| `IntelHex.ClimbsIffOrderly` | keyboard/qmk/firmware/util/uf2conv.py:193-200 | the blocks climb exactly when the pages never go back nor leave too large a gap |
| `IntelHex.FlatShowsMemory` | keyboard/qmk/firmware/util/uf2conv.py:193-200 | then the blocks laid out are the memory: at each address the last byte written, or zero |
| `IntelHex.HexToBinary` | keyboard/qmk/firmware/util/uf2conv.py:144-205 | HEX to UF2 to binary, for blocks that fit the fields of a header, succeeds exactly for orderly files and keeps their memory image, from the first page to the last |
| `IntelHex.GoesBack` | keyboard/qmk/firmware/util/uf2conv.py:193-205 | the other case: a file that goes back one page is packed and then not read back |
| `HexFiles.FileToMemory` | keyboard/qmk/firmware/util/uf2conv.py:168-205 | for the lines of typed records: byte i of a data record at offset a is set at 65536 u + a + i behind the last linear record u, and at 16 u + a + i behind the last segment record u; later bytes win, nothing behind the end record counts, and the start address is the first data address |
| `HexFiles.FileToImage` | keyboard/qmk/firmware/util/uf2conv.py:144-205 | from lines to image: for blocks that fit a header, the blocks of a file read back to an image that holds what its records say, exactly for orderly files |
| `HexFiles.RejectedIff` | keyboard/qmk/firmware/util/uf2conv.py:173-192 | a file is rejected if and only if a line that cannot be read stands before its end |

## Left out

* Auto Shift, Retro Shift, combos and per-key tapping callbacks: they call code that is not part of this model; one tapping term and one quick-tap term apply to all keys.
* What delivering a record does (`process_record`), re-entrant deliveries and `process_record_tap_hint`: a delivery is an entry of a log, whose content the keymap may depend on.
* Hand swap in front of the resolver: `TapLayers` takes positions as the hand swap leaves them, and asks that the events of a position alternate; `PressRelease` treats hand swap and layer cache in a row, as without tapping.
- TapLayers.Trace: a delivered press writes its entry once, with the layers before it takes effect; hooks of the keymap that change layers between the lookups of one event are not modelled.
- TapResolver.Resolver.ActionTappingProcess: times are unbounded and compared through 16-bit differences; key positions are numbers without the 8-bit limit of the code.
- Keymap.Store.SetKeycode: the variant that reads and writes single bytes without a cache is not modelled; it leaves the same bytes. A keycode write is one step, not cut between its two bytes.
- ViaReset.Via.Init: power cuts fall between byte writes, in the order in which the driver is asked for them; pages written partly by the device itself are not modelled.
- MacroSend.SendById: a read past the macro buffer ends the model with the outcome Overrun instead of continuing with whatever bytes follow; waiting is not modelled.
- DynamicMacro.Recorder.Play: clearing layers and keyboard around recording and playing, and recordings that contain recording keys played back, are not modelled.
- DeferredExec.Executor.Task: callbacks are arbitrary functions of what ran before but do not change the table themselves; a null table is not modelled.
- PressRelease.Keyboard.StoreOrGetLayer: the result is the layer; the action found there is left to the keymap.
- PressRelease.Keyboard.ProcessHandSwap: the swap tables are required to lead from keys of the board to keys of the board, and encoder events to name existing encoders; the code relies on both.
- Matrix.Scanner.MatrixTask: reading the matrix is an argument, and whether a position holds a key is fixed for a run.
- Uf2.Converter.ConvertFromUf2: the header report and the table of family names are not modelled, only the effect of several families on the result.
- IntelHex.ParseLine: only the characters that the recognition of HEX files lets through are considered; others count as bad digits.
- IntelHex.ConvertFromHexToUf2: the file is given as its lines; checksums and record lengths are not checked by the code either.
* The raw HID protocol, macro buffer windows (they work like the keymap windows), the wear-levelling driver, bus transfers, timing and write-protect pins, LEDs, displays, debug output and the command line of the converter.
* Small finite pieces: keycode ranges, modifiers, tri-layer, colour tables, operating system detection.
