# NUC firmware: a verified model

This project models the boot-time logic of the NUC5i7RYH firmware in Dafny 4.11 and proves
what it promises. `dafny verify dfyconfig.toml` checks all of it.

| files | part of the system |
|---|---|
| `Firmware`, `CapsuleParse`, `CapsuleScan`, `CapsuleRuns`, `CapsuleDelivery` | the capsule-on-disk scanner: parsing, one attempt, a scan, whole runs, what gets into flash and is booted |
| `BootOverride`, `OverrideRuns`, `BootRuns` | the one-shot boot override from the BMC, and runs of both handlers together |
| `CfrChecksum`, `CfrForms`, `CfrIfr` | coreboot's setup forms: checksum, tree walk, opcode stream |
| `Json`, `RedfishBodies`, `MemoryInventory`, `DriveInventory`, `InventoryReads` | the inventory reported to the BMC |
| `NetPolicy`, `DevicePath` | the NIC's IPv4 policy, and device paths |
| `SerialRing`, `AcmDriver` | the USB serial console: receive ring and driver binding |
| `FlashLayout`, `Bytes` | the flash descriptor and the merge script; words and bytes |

The handlers are described by the effects they cause, in order. Losing power inside a handler
keeps a prefix of them, so statements about runs cover a power failure at any point. Every
answer of a service (HTTP, FMP, file system, variables, USB, boot services) is a parameter, and
the statements hold for all of them unless an assumption below is named in the statement.

The main results:

- **No boot loop.** `BootRuns.ResetBudget`: over every run the resets are paid for by staged
  capsules and one-shot overrides.
- **No capsule written twice, none left behind, and exactly when none is lost.**
  `CapsuleRuns.WrittenAtMostOnce`, `GoneAfterTwoScans`, `NoCapsuleLost` and `ScanLosesNothing`,
  with the exact conditions under which the proof taken from the FMP's record is sound
  (`CapsuleScan.TruthfulApply`) and one scan is enough (`CapsuleRuns.GoneAfterOneScan`).
- **Staged capsules get in and are booted.** From writable or write-protected media
  (`CapsuleDelivery.HonestDelivery`, `DeliveredReadOnly`), with a restart exactly when one was
  applied (`RestartsExactly`); a one-shot boot request is booted at once
  (`OverrideRuns.RequestBooted`, `ResetsExactly`).
- **Setup forms mean what they say.** The byte stream of every form reads back as nested scopes
  that show each question exactly when it should be shown (`CfrIfr.FormShownAsMeant`); the flat
  walk is a preorder search (`CfrForms.WalkForm`); corruption within four bytes is always seen
  (`CfrForms.CorruptFormsRejected`).
- **Reports read back.** Every inventory body is JSON for exactly the members present; for the
  processor, if and only if it fits (`RedfishBodies.BuildProcessorPost`).
- **Policy survives the BMC.** Reporting a policy and reading it back never changes what is done
  to the NIC (`NetPolicy.ReadBackAppliesTheSame`).
- **Queues, resources, regions.** The ring is a queue (`SerialRing.Drive`), the driver
  gives back what it takes (`AcmDriver.Lifecycle`), the merge touches one region and can be
  undone (`FlashLayout.MergeBackRestores`).

Some promises hold only under a condition, which is then proved to be exact:

- The version gate compares with the version the boot runs, and a capsule written earlier in the
  same scan does not change that. A file of the running version listed behind one of another
  version can then be deleted although flash no longer holds it (`CapsuleRuns.TwoCapsulesLoseOne`);
  `CapsuleRuns.ScanLosesNothing` says for which listings this can happen.
- The scanner's proof that a capsule was applied needs all-or-nothing recording by the FMP
  (`CapsuleScan.VersionOnlyRecordLies`) and a snapshot that shows the stored record
  (`CapsuleScan.TruthfulApply`).
- Checking the bytes before the payload header on their own does not tell whether that header
  is found (`CapsuleParse.BlobAloneIsNotEnough`, `CapsuleParse.VersionRoundTrip`).
- The override handler clears a request before it sets BootNext; `OverrideRuns.EveryClearIsStaged`
  says when no request is lost in between, over whole runs.
- A dependency list is limited to 60 values and to 16 bits each, while questions are four bytes
  wide (`CfrIfr.FormShownAsMeant`, `CfrIfr.ListMeansItself`).
- Object ids have 64 bits and question ids 16. A dependency follows the first option whose id is
  cut to its question id (`CfrIfr.FormShownAsMeant`, `CfrIfr.CollidingIds`).
- The reader of defaults takes a character option's name first, the one that builds the menu its
  default value; no record suits both (`CfrForms.NoRecordSuitsBoth`), and the documented order
  suits the former only without dependency values (`CfrForms.DocumentedOrder`).
- The header calls the 1 KiB body generous headroom; a processor body can exceed it
  (`RedfishBodies.ProcessorCanOverflow`). Capacities from 2^63 bytes and other numbers from 2^31
  up are printed with a sign (`RedfishBodies.CapacityIsHonest`, `RedfishBodies.NumberIsHonest`).
- Bytes that arrive together with a transfer error are dropped (`SerialRing.Drive`).
- Start is documented to release all resources when it fails; it does unless the uninstall of
  its own interfaces fails, whose status it ignores (`AcmDriver.Start`).
- ApplyStaticConfig is documented to leave the NIC's configuration alone when it fails; a refused
  address comes after the policy has been switched (`NetPolicy.FailedStaticKeepsNic`).
- Fewer name servers are documented to clear the remaining questions; whether an empty list does
  depends on the converter (`NetPolicy.PolicyTransfers`).

Assumptions, beyond arbitrary answers:

- A delete that reports success removed the file, a file opens only while it is there, and a
  successful read returns as many bytes as it claims.
- A payload the host gets is the BMC's state at that moment, and an accepted clear leaves the
  override disabled. The BMC may change its request between the two.
- Flash writes are atomic. `HonestRun` (used by the statements on honest runs) says: media
  return the staged bytes, the snapshot shows the stored record and the version this boot runs
  (what flash held when it started), the FMP installs the version a capsule declares and records all or nothing, and a read-back shows the
  record or its default.
- AsciiStrCatS appends all of its source or nothing, AsciiSPrint truncates, %d and %ld print the
  two's complement value.
- Inventory strings have at most 63 characters, as CopyInventoryString and CopyIdentifyString
  leave them; memory capacity is below 2^31, as RedfishMemoryCapacityMiB leaves it; speeds,
  widths and counts come from 16-bit fields.
- JSON that is stored at the BMC comes back as the value it was. A question of the network form
  takes a value of up to 15 characters and keeps its old one for a longer value. NetLib's address
  functions are uninterpreted.
- A bulk transfer returns at most the length asked for. CloseProtocol on something that is not
  open has no effect. A new child handle has no open entries yet.
- IFR is evaluated as the UEFI specification describes: conditionals nest by scope, an expression
  is evaluated on a stack, a question id stands for the first question that carries it, and a
  comparison with a question that does not exist is undefined and hides nothing. Each question
  has the value of its own object. A dependency on an object that is no question hides nothing.
- The device-path bytes, SMBIOS string lists and CFR records handed to the readers are well
  formed, as those readers assume.

## Model

| member | source | states |
|---|---|---|
| `CapsuleParse.IsFmpCapsule` | meta-nuc-bios/recipes-bsp/edk2-uefipayload/files/NucRedfishPkg/Library/NucCapsuleOnDiskLib/NucCapsuleParse.c:52-77 | true exactly for the FMP capsule GUID |
| `CapsuleParse.ValidateHeader` | meta-nuc-bios/recipes-bsp/edk2-uefipayload/files/NucRedfishPkg/Library/NucCapsuleOnDiskLib/NucCapsuleParse.c:79-138 | the verdict on any buffer; an accepted header has 28 <= HeaderSize <= ImageSize <= length |
| `CapsuleParse.HeaderRoundTrip` | meta-nuc-bios/recipes-bsp/edk2-uefipayload/files/NucRedfishPkg/Library/NucCapsuleOnDiskLib/NucCapsuleParse.c:97-137 | every encoded header, legal or not, is judged by the fields it was encoded from, whatever follows it |
| `CapsuleParse.AcceptedExactly` | meta-nuc-bios/recipes-bsp/edk2-uefipayload/files/NucRedfishPkg/Library/NucCapsuleOnDiskLib/NucCapsuleParse.c:97-137 | a buffer is accepted if and only if its first 16 bytes are the FMP capsule GUID, flag bit 16 is clear and the sizes fit into each other |
| `CapsuleParse.GetPayloadVersion` | meta-nuc-bios/recipes-bsp/edk2-uefipayload/files/NucRedfishPkg/Library/NucCapsuleOnDiskLib/NucCapsuleParse.c:140-175 | the version at the first plausible payload header in the 64 KiB window; none exactly when there is no such header |
| `CapsuleParse.VersionRoundTrip` | meta-nuc-bios/recipes-bsp/edk2-uefipayload/files/NucRedfishPkg/Library/NucCapsuleOnDiskLib/NucCapsuleParse.c:151-174 | behind any blob the search answers the header's version, whatever that is, if and only if the header lies in the window and the packer's test of the blob finds no believable signature in it |
| `CapsuleParse.CapsuleIsSound` | meta-nuc-bios/recipes-bsp/edk2-uefipayload/files/NucRedfishPkg/Library/NucCapsuleOnDiskLib/NucCapsuleParse.c:97-174 | a smallest capsule of every version: its header is accepted and its version found |
| `CapsuleParse.BlobAloneIsNotEnough` | meta-nuc-bios/recipes-bsp/edk2-uefipayload/files/NucRedfishPkg/Library/NucCapsuleOnDiskLib/NucCapsuleParse.c:151-174 | a blob with no plausible header of its own can still hide the real one: the version answered is then a word of the header |
| `CapsuleParse.IsCandidateFile` | meta-nuc-bios/recipes-bsp/edk2-uefipayload/files/NucRedfishPkg/Library/NucCapsuleOnDiskLib/NucCapsuleParse.c:177-225 | true exactly for names ending in .cap in any case |
| `CapsuleParse.CandidateNames` | meta-nuc-bios/recipes-bsp/edk2-uefipayload/files/NucRedfishPkg/Library/NucCapsuleOnDiskLib/NucCapsuleParse.c:177-225 | whatever the stem, .cap is a candidate in any case, and .bin and .cap.tmp are not |
| `CapsuleScan.GetFmpLastAttemptStatus` | meta-nuc-bios/recipes-bsp/edk2-uefipayload/files/NucRedfishPkg/Library/NucCapsuleOnDiskLib/NucCapsuleOnDiskLib.c:426-517 | the record of the first usable FMP descriptor; none exactly when no descriptor is usable |
| `CapsuleScan.UpdateAndProve` | meta-nuc-bios/recipes-bsp/edk2-uefipayload/files/NucRedfishPkg/Library/NucCapsuleOnDiskLib/NucCapsuleOnDiskLib.c:718-838 | the effects from UpdateCapsule on, and success exactly when the attempt was proven and the file deleted |
| `CapsuleScan.ApplyOneCapsule` | meta-nuc-bios/recipes-bsp/edk2-uefipayload/files/NucRedfishPkg/Library/NucCapsuleOnDiskLib/NucCapsuleOnDiskLib.c:557-839 | the effects of one attempt for every pattern of answers; success only with the file gone |
| `CapsuleScan.TruthfulApply` | meta-nuc-bios/recipes-bsp/edk2-uefipayload/files/NucRedfishPkg/Library/NucCapsuleOnDiskLib/NucCapsuleOnDiskLib.c:662-708 | with all-or-nothing recording, no later answer can make the scanner delete a capsule it did not write, if and only if the attempt ends early or cannot delete, or the stored record could not pass for a success, or the snapshot shows that very record |
| `CapsuleScan.VersionOnlyRecordLies` | meta-nuc-bios/recipes-bsp/edk2-uefipayload/files/NucRedfishPkg/Library/NucCapsuleOnDiskLib/NucCapsuleOnDiskLib.c:779-797 | without all-or-nothing recording the guards fail exactly when the version recorded over an old success is non-zero and new |
| `CapsuleScan.DropBoxHasCapsules` | meta-nuc-bios/recipes-bsp/edk2-uefipayload/files/NucRedfishPkg/Library/NucCapsuleOnDiskLib/NucCapsuleOnDiskLib.c:346-378 | true exactly when the directory holds a candidate |
| `CapsuleScan.CollectNames` | meta-nuc-bios/recipes-bsp/edk2-uefipayload/files/NucRedfishPkg/Library/NucCapsuleOnDiskLib/NucCapsuleOnDiskLib.c:871-894 | the first eight candidates whose names could be copied, in directory order |
| `CapsuleScan.ProcessDropBox` | meta-nuc-bios/recipes-bsp/edk2-uefipayload/files/NucRedfishPkg/Library/NucCapsuleOnDiskLib/NucCapsuleOnDiskLib.c:850-907 | the effects of all attempts on a volume; Applied + Failed grows by the names collected |
| `CapsuleScan.QuickPass` | meta-nuc-bios/recipes-bsp/edk2-uefipayload/files/NucRedfishPkg/Library/NucCapsuleOnDiskLib/NucCapsuleOnDiskLib.c:956-966 | true exactly when some volume holds a candidate |
| `CapsuleScan.FullPass` | meta-nuc-bios/recipes-bsp/edk2-uefipayload/files/NucRedfishPkg/Library/NucCapsuleOnDiskLib/NucCapsuleOnDiskLib.c:976-983 | the effects of all attempts on all volumes; Applied + Failed equals the number of attempts |
| `CapsuleScan.OnReadyToBoot` | meta-nuc-bios/recipes-bsp/edk2-uefipayload/files/NucRedfishPkg/Library/NucCapsuleOnDiskLib/NucCapsuleOnDiskLib.c:917-1017 | nothing after the first signal of a boot; otherwise the scan, with the log ending in a reset exactly when something was applied |
| `CapsuleScan.QuickPassExact` | meta-nuc-bios/recipes-bsp/edk2-uefipayload/files/NucRedfishPkg/Library/NucCapsuleOnDiskLib/NucCapsuleOnDiskLib.c:363-374 | on unchanged directories the quick pass says yes exactly when there is a candidate, the full pass has work exactly when one of their names can be copied, and at most eight attempts per volume are made |
| `CapsuleScan.EachAttemptedOnce` | meta-nuc-bios/recipes-bsp/edk2-uefipayload/files/NucRedfishPkg/Library/NucCapsuleOnDiskLib/NucCapsuleOnDiskLib.c:876-904 | on distinct volumes with distinct names no file is attempted twice in a scan |
| `CapsuleScan.KeptAt` | meta-nuc-bios/recipes-bsp/edk2-uefipayload/files/NucRedfishPkg/Library/NucCapsuleOnDiskLib/NucCapsuleOnDiskLib.c:871-894 | names are kept in directory order: as many stand before one as were kept before it |
| `CapsuleScan.EveryCandidateAttempted` | meta-nuc-bios/recipes-bsp/edk2-uefipayload/files/NucRedfishPkg/Library/NucCapsuleOnDiskLib/NucCapsuleOnDiskLib.c:871-913 | every candidate among the first eight kept of its volume is attempted, under its volume and name |
| `CapsuleDelivery.WritesExactly` | meta-nuc-bios/recipes-bsp/edk2-uefipayload/files/NucRedfishPkg/Library/NucCapsuleOnDiskLib/NucCapsuleOnDiskLib.c:583-598 | an attempt writes flash if and only if the file opened in either mode, was read whole, is a capsule not known to be running, and the FMP wrote it |
| `CapsuleDelivery.DeletesExactly` | meta-nuc-bios/recipes-bsp/edk2-uefipayload/files/NucRedfishPkg/Library/NucCapsuleOnDiskLib/NucCapsuleOnDiskLib.c:677-838 | an attempt deletes its file if and only if that opened read-write and is either running already or proven applied |
| `CapsuleDelivery.EffectsInOrder` | meta-nuc-bios/recipes-bsp/edk2-uefipayload/files/NucRedfishPkg/Library/NucCapsuleOnDiskLib/NucCapsuleOnDiskLib.c:718-838 | an attempt does nothing else besides the FMP's recording, and the delete comes last |
| `CapsuleDelivery.AppliedExactly` | meta-nuc-bios/recipes-bsp/edk2-uefipayload/files/NucRedfishPkg/Library/NucCapsuleOnDiskLib/NucCapsuleOnDiskLib.c:779-838 | an attempt counts as applied if and only if the capsule was news, the record proves it and the delete succeeded |
| `CapsuleDelivery.HonestDelivery` | meta-nuc-bios/recipes-bsp/edk2-uefipayload/files/NucRedfishPkg/Library/NucCapsuleOnDiskLib/NucCapsuleOnDiskLib.c:583-598 | an honest attempt on a deliverable file of another version, opened in either mode, leaves its version in flash if and only if the FMP wrote, and deletes it only if it opened read-write |
| `CapsuleDelivery.RestartsExactly` | meta-nuc-bios/recipes-bsp/edk2-uefipayload/files/NucRedfishPkg/Library/NucCapsuleOnDiskLib/NucCapsuleOnDiskLib.c:999-1006 | after an uncut scan the machine has restarted into what flash holds, latches clear, if and only if some capsule was applied; otherwise the boot goes on with its scan done |
| `CapsuleDelivery.SignalsLatch` | meta-nuc-bios/recipes-bsp/edk2-uefipayload/files/NucRedfishPkg/Library/NucCapsuleOnDiskLib/NucCapsuleOnDiskLib.c:934-945 | every uncut signal that does not restart the machine leaves the scan done for this boot |
| `CapsuleDelivery.AppliedIsBooted` | meta-nuc-bios/recipes-bsp/edk2-uefipayload/files/NucRedfishPkg/Library/NucCapsuleOnDiskLib/NucCapsuleOnDiskLib.c:808-1006 | one honest scan of a new version that is written, recorded and read back: the file is gone and the machine runs that version |
| `CapsuleDelivery.DeliveredReadOnly` | meta-nuc-bios/recipes-bsp/edk2-uefipayload/files/NucRedfishPkg/Library/NucCapsuleOnDiskLib/NucCapsuleOnDiskLib.c:583-598 | over every honest run with one scan that delivers it, a capsule that only ever opens read-only ends in flash, written exactly once (not at all if it was there before), and stays where it is |
| `BootRuns.Execute` | meta-nuc-bios/recipes-bsp/edk2-uefipayload/files/NucRedfishPkg/Library/NucCapsuleOnDiskLib/NucCapsuleOnDiskLib.c:917-1017 | on the machine, with its latches and the version it runs, both handlers take exactly the step that the runs are made of |
| `BootRuns.ExecuteAll` | meta-nuc-bios/recipes-bsp/edk2-uefipayload/files/NucRedfishPkg/Library/NucCapsuleOnDiskLib/NucCapsuleOnDiskLib.c:917-1017 | and whole runs without a power failure give exactly the run's state and effects |
| `BootRuns.OneScanPerBoot` | meta-nuc-bios/recipes-bsp/edk2-uefipayload/files/NucRedfishPkg/Library/NucCapsuleOnDiskLib/NucCapsuleOnDiskLib.c:934-945 | over every run, once a boot has scanned, no later ReadyToBoot signal of that boot has any effect |
| `BootRuns.ScanPays` | meta-nuc-bios/recipes-bsp/edk2-uefipayload/files/NucRedfishPkg/Library/NucCapsuleOnDiskLib/NucCapsuleOnDiskLib.c:808-838 | the reset of a scan comes last and is paid for: resets plus what is still pending never exceed what was pending before |
| `BootRuns.OverridePays` | meta-nuc-bios/recipes-bsp/edk2-uefipayload/files/NucRedfishPkg/NucRedfishSyncDxe/NucRedfishSyncDxe.c:493-535 | the same for the override handler, even when the BMC changes its request in between (a new request counts as staged) |
| `BootRuns.ResetBudget` | meta-nuc-bios/recipes-bsp/edk2-uefipayload/files/NucRedfishPkg/Library/NucCapsuleOnDiskLib/NucCapsuleOnDiskLib.c:976-1007 | over every run of boots, power failures anywhere inside a handler, and stagings, with arbitrary answers: resets plus what is still pending never exceed what was pending at first plus the capsules and one-shot overrides staged since |
| `CapsuleRuns.CoherentRun` | meta-nuc-bios/recipes-bsp/edk2-uefipayload/files/NucRedfishPkg/Library/NucCapsuleOnDiskLib/NucCapsuleOnDiskLib.c:652-691 | over every run, until a boot has scanned the version it runs is the one flash holds |
| `CapsuleRuns.AttemptSettled` | meta-nuc-bios/recipes-bsp/edk2-uefipayload/files/NucRedfishPkg/Library/NucCapsuleOnDiskLib/NucCapsuleOnDiskLib.c:669-701 | for one honest attempt, cut anywhere: a delete at the version gate is of a file that flash holds if and only if flash still holds the running version; every other delete is of such a file |
| `CapsuleRuns.NoCapsuleLost` | meta-nuc-bios/recipes-bsp/edk2-uefipayload/files/NucRedfishPkg/Library/NucCapsuleOnDiskLib/NucCapsuleOnDiskLib.c:662-838 | over every honest run, every capsule file deleted is one that flash holds (or, without a readable version, that flash was last written from since it was staged) if and only if no file goes at the version gate while flash no longer holds the running version |
| `CapsuleRuns.ScanLosesNothing` | meta-nuc-bios/recipes-bsp/edk2-uefipayload/files/NucRedfishPkg/Library/NucCapsuleOnDiskLib/NucCapsuleOnDiskLib.c:676-708 | what can be checked beforehand: no honest answers make a scan of a listing lose a file if and only if no deliverable file of another version is listed ahead of one of the running version |
| `CapsuleRuns.SafeRunsLoseNothing` | meta-nuc-bios/recipes-bsp/edk2-uefipayload/files/NucRedfishPkg/Library/NucCapsuleOnDiskLib/NucCapsuleOnDiskLib.c:662-838 | over every honest run with such listings no capsule is lost |
| `CapsuleRuns.TwoCapsulesLoseOne` | meta-nuc-bios/recipes-bsp/edk2-uefipayload/files/NucRedfishPkg/Library/NucCapsuleOnDiskLib/NucCapsuleOnDiskLib.c:676-708 | version 2 staged ahead of the running version 1: honest answers under which the second file is deleted without flash holding it |
| `CapsuleRuns.GateHoldsUntilWrite` | meta-nuc-bios/recipes-bsp/edk2-uefipayload/files/NucRedfishPkg/Library/NucCapsuleOnDiskLib/NucCapsuleOnDiskLib.c:669-701 | with readable versions flash holds the running version during a scan if and only if no earlier attempt of it wrote |
| `CapsuleRuns.WrittenAtMostOnce` | meta-nuc-bios/recipes-bsp/edk2-uefipayload/files/NucRedfishPkg/Library/NucCapsuleOnDiskLib/NucCapsuleOnDiskLib.c:669-701 | over every honest run a single staged capsule is written at most once, not at all if flash already holds it, and flash then keeps it |
| `CapsuleRuns.GoneAfterOneScan` | meta-nuc-bios/recipes-bsp/edk2-uefipayload/files/NucRedfishPkg/Library/NucCapsuleOnDiskLib/NucCapsuleOnDiskLib.c:779-838 | a new version goes in one scan if and only if it is non-zero, recorded as a success and read back as such, and the record did not say so before |
| `CapsuleRuns.GoneAfterTwoScans` | meta-nuc-bios/recipes-bsp/edk2-uefipayload/files/NucRedfishPkg/Library/NucCapsuleOnDiskLib/NucCapsuleOnDiskLib.c:828-838 | over every honest run a deletable capsule is gone after two completed scans, each needed only while the file is there, version 0 and an earlier identical record included |
| `BootOverride.FindBootOverrideOption` | meta-nuc-bios/recipes-bsp/edk2-uefipayload/files/NucRedfishPkg/NucRedfishSyncDxe/NucRedfishSyncDxe.c:255-351 | the first boot option of the class the target names; none exactly when there is none |
| `BootOverride.ServedWhenPossible` | meta-nuc-bios/recipes-bsp/edk2-uefipayload/files/NucRedfishPkg/NucRedfishSyncDxe/NucRedfishSyncDxe.c:255-351 | a request is served if and only if some option is of its class |
| `BootOverride.NicByNode` | meta-nuc-bios/recipes-bsp/edk2-uefipayload/files/NucRedfishPkg/NucRedfishSyncDxe/NucRedfishSyncDxe.c:133-161 | the network class by node numbers: a MAC address node and no USB node |
| `BootOverride.DiskByNode` | meta-nuc-bios/recipes-bsp/edk2-uefipayload/files/NucRedfishPkg/NucRedfishSyncDxe/NucRedfishSyncDxe.c:194-228 | the disk class by node numbers: a hard drive node or one of seven storage nodes |
| `BootOverride.CategoryByBits` | meta-nuc-bios/recipes-bsp/edk2-uefipayload/files/NucRedfishPkg/NucRedfishSyncDxe/NucRedfishSyncDxe.c:255-351 | the setup class by bits 8 to 12 of the attributes |
| `BootOverride.TargetsByName` | meta-nuc-bios/recipes-bsp/edk2-uefipayload/files/NucRedfishPkg/NucRedfishSyncDxe/NucRedfishSyncDxe.c:255-351 | Pxe, Hdd and BiosSetup name these three classes, and no other target names any |
| `BootOverride.HandleBootOverride` | meta-nuc-bios/recipes-bsp/edk2-uefipayload/files/NucRedfishPkg/NucRedfishSyncDxe/NucRedfishSyncDxe.c:448-538 | the effects of the exchange for every pattern of answers |
| `BootOverride.ConfigHandlerInit` | meta-nuc-bios/recipes-bsp/edk2-uefipayload/files/NucRedfishPkg/NucRedfishSyncDxe/NucRedfishSyncDxe.c:902-965 | the handler acts at most once per boot, and latches exactly with a service and a REST EX handle |
| `BootOverride.ClearedBeforeStaged` | meta-nuc-bios/recipes-bsp/edk2-uefipayload/files/NucRedfishPkg/NucRedfishSyncDxe/NucRedfishSyncDxe.c:493-535 | BootNext and the reset come only after the BMC accepted the clear, for a Once request, with the first option of its class; the override is no longer pending then, whatever prefix of the effects survives |
| `OverrideRuns.CallFollowed` | meta-nuc-bios/recipes-bsp/edk2-uefipayload/files/NucRedfishPkg/NucRedfishSyncDxe/NucRedfishSyncDxe.c:493-535 | a call that clears a request goes on to BootNext if and only if the clear was reported, the variable was written and power held until then |
| `OverrideRuns.RequestHonoured` | meta-nuc-bios/recipes-bsp/edk2-uefipayload/files/NucRedfishPkg/NucRedfishSyncDxe/NucRedfishSyncDxe.c:448-538 | the request standing at the BMC when it is cleared gets the option it asked for, if and only if the call reaches BootNext and a request that came in between asks for the same option |
| `OverrideRuns.EveryClearIsStaged` | meta-nuc-bios/recipes-bsp/edk2-uefipayload/files/NucRedfishPkg/NucRedfishSyncDxe/NucRedfishSyncDxe.c:493-535 | over every run, with power failing anywhere and every answer arbitrary: every clear is directly followed by BootNext, if and only if no call that cleared a request lost the reply, failed to write the variable or lost power in between |
| `OverrideRuns.CutLosesRequest` | meta-nuc-bios/recipes-bsp/edk2-uefipayload/files/NucRedfishPkg/NucRedfishSyncDxe/NucRedfishSyncDxe.c:493-535 | power lost right after a clear that no new request came before: the request is gone from the BMC and BootNext is what it was |
| `OverrideRuns.RequestBooted` | meta-nuc-bios/recipes-bsp/edk2-uefipayload/files/NucRedfishPkg/NucRedfishSyncDxe/NucRedfishSyncDxe.c:407-432 | an uncut call asked for a class the machine has an option of, with the clear reported and the variable written, ends in BootNext for the first option of that class and the reset; the next boot starts with clear latches and the request gone |
| `OverrideRuns.ResetsExactly` | meta-nuc-bios/recipes-bsp/edk2-uefipayload/files/NucRedfishPkg/NucRedfishSyncDxe/NucRedfishSyncDxe.c:902-965 | an uncut call resets the machine if and only if the exchange was reached, a one-shot request named a class with an option, the clear was reported and the variable written; otherwise it has used up the boot's exchange exactly with a service and a REST EX handle |
| `DevicePath.OptionHasNode` | meta-nuc-bios/recipes-bsp/edk2-uefipayload/files/NucRedfishPkg/NucRedfishSyncDxe/NucRedfishSyncDxe.c:93-114 | true exactly when the path has such a node |
| `DevicePath.OptionIsNetworkBoot` | meta-nuc-bios/recipes-bsp/edk2-uefipayload/files/NucRedfishPkg/NucRedfishSyncDxe/NucRedfishSyncDxe.c:131-161 | true exactly for paths with a MAC node and no USB node |
| `DevicePath.ClassifyNicDevicePath` | meta-nuc-bios/recipes-bsp/edk2-uefipayload/files/NucRedfishPkg/EthConfigDxe/EthConfigDxe.c:233-256 | has-MAC and not over-USB is the same predicate as in the boot override |
| `DevicePath.OptionIsDiskBoot` | meta-nuc-bios/recipes-bsp/edk2-uefipayload/files/NucRedfishPkg/NucRedfishSyncDxe/NucRedfishSyncDxe.c:192-228 | true exactly for paths with a hard-drive or storage node |
| `DevicePath.DevicePathPrefixSize` | meta-nuc-bios/recipes-bsp/edk2-uefipayload/files/NucRedfishPkg/UsbCdcAcmDxe/UsbCdcAcmDxe.c:59-80 | on the bytes of any path: the size of everything before the last node, and where that node is |
| `DevicePath.SameDevice` | meta-nuc-bios/recipes-bsp/edk2-uefipayload/files/NucRedfishPkg/UsbCdcAcmDxe/UsbCdcAcmDxe.c:154-163 | equal prefix size and equal prefix bytes hold exactly when the node lists agree on all but the last node |
| `CfrChecksum.CalculateCrc32` | meta-nuc-bios/recipes-bsp/edk2/files/0011-UefiPayloadPkg-Implement-CFR-support.patch:2072-2097 | the nested loops compute the per-byte fold of the bit step |
| `CfrChecksum.CrcOfOne` | meta-nuc-bios/recipes-bsp/edk2/files/0011-UefiPayloadPkg-Implement-CFR-support.patch:2072-2097 | the checksum of the single byte 1 is the polynomial's terms below x^32, by name |
| `CfrChecksum.CheckValue` | meta-nuc-bios/recipes-bsp/edk2/files/0011-UefiPayloadPkg-Implement-CFR-support.patch:2072-2097 | the checksum of the digits 1 to 9 is the published check value of CRC-32/CKSUM before its final inversion |
| `CfrChecksum.StepLinear` | meta-nuc-bios/recipes-bsp/edk2/files/0011-UefiPayloadPkg-Implement-CFR-support.patch:2087-2093 | the bit step is linear over GF(2) |
| `CfrChecksum.StepBijective` | meta-nuc-bios/recipes-bsp/edk2/files/0011-UefiPayloadPkg-Implement-CFR-support.patch:2087-2093 | the bit step has an inverse |
| `CfrChecksum.CrcLinear` | meta-nuc-bios/recipes-bsp/edk2/files/0011-UefiPayloadPkg-Implement-CFR-support.patch:2072-2097 | the checksum is linear over GF(2) on messages of equal length |
| `CfrChecksum.CrcFromInjective` | meta-nuc-bios/recipes-bsp/edk2/files/0011-UefiPayloadPkg-Implement-CFR-support.patch:2072-2097 | the same bytes never merge two register values |
| `CfrChecksum.ChecksumAppended` | meta-nuc-bios/recipes-bsp/edk2/files/0011-UefiPayloadPkg-Implement-CFR-support.patch:2072-2097 | a message followed by its own checksum, big-endian, has checksum zero |
| `CfrChecksum.BurstDetected` | meta-nuc-bios/recipes-bsp/edk2/files/0011-UefiPayloadPkg-Implement-CFR-support.patch:2072-2097 | any change confined to four consecutive bytes changes the checksum |
| `CfrForms.ReadVarchar` | meta-nuc-bios/recipes-bsp/edk2/files/0011-UefiPayloadPkg-Implement-CFR-support.patch:2342-2362 | the default of a character option is the data of the record behind its name, UI name and help text, if that is there |
| `CfrForms.NoRecordSuitsBoth` | meta-nuc-bios/recipes-bsp/edk2/files/0011-UefiPayloadPkg-Implement-CFR-support.patch:1101-1116 | no bytes whatsoever are a character option that both of its readers can read |
| `CfrForms.VarcharSuitsOneReader` | meta-nuc-bios/recipes-bsp/edk2/files/0011-UefiPayloadPkg-Implement-CFR-support.patch:2342-2362 | an option laid out for the reader of defaults is read by it, at the default's own record, and not by the reader that builds the menu |
| `CfrForms.DocumentedOrder` | meta-nuc-bios/recipes-bsp/edk2/files/0011-UefiPayloadPkg-Implement-CFR-support.patch:1925-1938 | in the documented record order the menu's reader finds nothing, and the reader of defaults finds the default if and only if the option has no dependency values |
| `CfrForms.WalkForm` | meta-nuc-bios/recipes-bsp/edk2/files/0011-UefiPayloadPkg-Implement-CFR-support.patch:2311-2372 | on the bytes of any tree of nested forms, numeric and character options, these with any records behind their names, the flat walk answers the first match in the tree's preorder and otherwise ends exactly at the form's size |
| `CfrForms.OptionGetDefaultValue` | meta-nuc-bios/recipes-bsp/edk2/files/0011-UefiPayloadPkg-Implement-CFR-support.patch:2265-2378 | over any list of forms, the default value of the first option with the name in the wanted forms, in preorder; none if a form has the name first or nothing has it |
| `CfrForms.EveryOptionVisited` | meta-nuc-bios/recipes-bsp/edk2/files/0011-UefiPayloadPkg-Implement-CFR-support.patch:2311-2372 | every option at any depth of a tree is visited under its name: a number with its little-endian default, a text with its terminator |
| `CfrForms.LookupUnique` | meta-nuc-bios/recipes-bsp/edk2/files/0011-UefiPayloadPkg-Implement-CFR-support.patch:2311-2372 | a name that one visit only carries is looked up to that visit |
| `CfrForms.VisitsExactly` | meta-nuc-bios/recipes-bsp/edk2/files/0011-UefiPayloadPkg-Implement-CFR-support.patch:2292-2305 | what is visited is what the preorders of the forms of the wanted name hold, or of all forms |
| `CfrForms.ParseMiscInfo` | meta-nuc-bios/recipes-bsp/edk2/files/0011-UefiPayloadPkg-Implement-CFR-support.patch:2121-2186 | for every table: another version and a wrong checksum are refused, otherwise the forms are split off by their size fields |
| `CfrForms.TableAccepted` | meta-nuc-bios/recipes-bsp/edk2/files/0011-UefiPayloadPkg-Implement-CFR-support.patch:2146-2186 | a root record of version 0 with any encoded forms is split into exactly their bytes if its checksum field holds the forms' checksum least significant byte first, and refused with any other four bytes there |
| `CfrForms.FieldMatches` | meta-nuc-bios/recipes-bsp/edk2/files/0011-UefiPayloadPkg-Implement-CFR-support.patch:2146-2151 | of any table: it is intact if and only if bytes 12 to 15 are the checksum of the rest, least significant first |
| `CfrForms.SplitLosesNothing` | meta-nuc-bios/recipes-bsp/edk2/files/0011-UefiPayloadPkg-Implement-CFR-support.patch:2158-2183 | with room to spare the HOBs put together are the table's forms, byte for byte |
| `CfrForms.SplitEncoded` | meta-nuc-bios/recipes-bsp/edk2/files/0011-UefiPayloadPkg-Implement-CFR-support.patch:2158-2183 | a table of encoded forms is split into exactly their bytes |
| `CfrForms.CorruptFormsRejected` | meta-nuc-bios/recipes-bsp/edk2/files/0011-UefiPayloadPkg-Implement-CFR-support.patch:2146-2151 | an intact table whose forms are changed within any four consecutive bytes is not intact |
| `CfrIfr.OpCodeBuffer.ProduceForFlags` | meta-nuc-bios/recipes-bsp/edk2/files/0011-UefiPayloadPkg-Implement-CFR-support.patch:474-513 | appends the always-true conditional, for the two conditionals it knows |
| `CfrIfr.OpCodeBuffer.AppendValueList` | meta-nuc-bios/recipes-bsp/edk2/files/0011-UefiPayloadPkg-Implement-CFR-support.patch:549-571 | appends one list opcode with every value truncated to 16 bits |
| `CfrIfr.OpCodeBuffer.ProduceForDependency` | meta-nuc-bios/recipes-bsp/edk2/files/0011-UefiPayloadPkg-Implement-CFR-support.patch:521-608 | appends the dependency's suppress-if with its expression |
| `CfrIfr.ListIsUefi` | meta-nuc-bios/recipes-bsp/edk2/files/0011-UefiPayloadPkg-Implement-CFR-support.patch:549-590 | a dependency with one value, byte for byte as the UEFI specification numbers its opcodes |
| `CfrIfr.OthersAreUefi` | meta-nuc-bios/recipes-bsp/edk2/files/0011-UefiPayloadPkg-Implement-CFR-support.patch:474-608 | so a dependency without values and the two conditionals of the flags |
| `CfrIfr.OpCodeBuffer.ProcessEntry` | meta-nuc-bios/recipes-bsp/edk2/files/0011-UefiPayloadPkg-Implement-CFR-support.patch:903-917 | appends storage, conditionals, block and one END per conditional |
| `CfrIfr.OpCodeBuffer.ProcessForm` | meta-nuc-bios/recipes-bsp/edk2/files/0011-UefiPayloadPkg-Implement-CFR-support.patch:1316-1380 | appends every entry of a form in order |
| `CfrIfr.ShownEntry` | meta-nuc-bios/recipes-bsp/edk2/files/0011-UefiPayloadPkg-Implement-CFR-support.patch:903-917 | evaluated inside any remaining stream, an entry shows exactly its block under its own conditionals and leaves no scope open |
| `CfrIfr.ViewCutEntry` | meta-nuc-bios/recipes-bsp/edk2/files/0011-UefiPayloadPkg-Implement-CFR-support.patch:549-571 | an entry whose list does not fit spoils the whole stream, whatever follows |
| `CfrIfr.FormQuestions` | meta-nuc-bios/recipes-bsp/edk2/files/0011-UefiPayloadPkg-Implement-CFR-support.patch:888-906 | the questions in the stream of a form are those of its entries, in order, each under the id its object's 64-bit id is cut to |
| `CfrIfr.FormAnswered` | meta-nuc-bios/recipes-bsp/edk2/files/0011-UefiPayloadPkg-Implement-CFR-support.patch:549-590 | the answer a browser has for a question id is the value of the first object whose id is cut to it, and none if there is none |
| `CfrIfr.FormShownAsMeant` | meta-nuc-bios/recipes-bsp/edk2/files/0011-UefiPayloadPkg-Implement-CFR-support.patch:1037-1049 | the bytes of a form read back as nested scopes that show every question as meant, for all 32-bit values of its objects (hidden when suppressed or when the value of the dependency's own object is outside its list, or 0 without a list; grayed when inactive), if and only if every list has at most 60 values and every dependency that decides what is seen either names no question at all, or has only values below 65536 and is on the first object of the form whose id is cut to its question id |
| `CfrIfr.FittingFormShownAsMeant` | meta-nuc-bios/recipes-bsp/edk2/files/0011-UefiPayloadPkg-Implement-CFR-support.patch:1037-1049 | under that condition every form is shown as meant, whatever the counts |
| `CfrIfr.CollidingIds` | meta-nuc-bios/recipes-bsp/edk2/files/0011-UefiPayloadPkg-Implement-CFR-support.patch:888-906 | of any two options whose ids are cut to the same question id, a third that depends on one of them follows that one for all values if and only if that one comes first |
| `CfrIfr.ListLimit` | meta-nuc-bios/recipes-bsp/edk2/files/0011-UefiPayloadPkg-Implement-CFR-support.patch:549-556 | a value list reads back as itself if and only if it has at most 60 values |
| `CfrIfr.ListMeansItself` | meta-nuc-bios/recipes-bsp/edk2/files/0011-UefiPayloadPkg-Implement-CFR-support.patch:559-562 | the opcodes of a dependency mean what it lists, for every 32-bit answer, if and only if every listed value is below 65536 |
| `Json.ParsePrint` | meta-nuc-bios/recipes-bsp/edk2-uefipayload/files/NucRedfishPkg/NucRedfishSyncDxe/NucRedfishInventory.c:452-469 | reading printed JSON gives back the value, members in order (section 7 of RFC 8259 for strings) |
| `RedfishBodies.EscapeValue` | meta-nuc-bios/recipes-bsp/edk2-uefipayload/files/NucRedfishPkg/NucRedfishSyncDxe/NucRedfishInventory.c:444-463 | the escape loop stays in its buffer, stops early only when that is used up, and never does for 63 characters |
| `RedfishBodies.Body.AppendJsonString` | meta-nuc-bios/recipes-bsp/edk2-uefipayload/files/NucRedfishPkg/NucRedfishSyncDxe/NucRedfishInventory.c:435-470 | as long as everything fits, the member is added with as much of the value as the escape buffer takes: all of it up to 63 characters; nothing for an absent or empty value |
| `RedfishBodies.Body.AppendJsonNumber` | meta-nuc-bios/recipes-bsp/edk2-uefipayload/files/NucRedfishPkg/NucRedfishSyncDxe/NucRedfishInventory.c:522-539 | as long as everything fits, the number member is added as the 32-byte buffer prints it; nothing for zero |
| `RedfishBodies.NumberIsHonest` | meta-nuc-bios/recipes-bsp/edk2-uefipayload/files/NucRedfishPkg/NucRedfishSyncDxe/NucRedfishInventory.c:531-538 | the number printed is the value if and only if the value is below 2^31 |
| `RedfishBodies.SystemFits` | meta-nuc-bios/recipes-bsp/edk2-uefipayload/files/NucRedfishPkg/NucRedfishSyncDxe/NucRedfishInventory.c:494-509 | no ComputerSystem body reaches 1024 characters |
| `RedfishBodies.BuildSystemPatch` | meta-nuc-bios/recipes-bsp/edk2-uefipayload/files/NucRedfishPkg/NucRedfishSyncDxe/NucRedfishInventory.c:472-513 | the body reads back as the boot progress and exactly the members present, in order, control characters as spaces |
| `InventoryReads.SystemSays` | meta-nuc-bios/recipes-bsp/edk2-uefipayload/files/NucRedfishPkg/NucRedfishSyncDxe/NucRedfishInventory.c:472-513 | the members are the boot progress and each text that is set, under its Redfish name and with its own value, and no others |
| `RedfishBodies.MemoryFits` | meta-nuc-bios/recipes-bsp/edk2-uefipayload/files/NucRedfishPkg/NucRedfishSyncDxe/NucRedfishInventory.c:567-605 | no Memory body reaches 1024 characters |
| `RedfishBodies.BuildMemoryPost` | meta-nuc-bios/recipes-bsp/edk2-uefipayload/files/NucRedfishPkg/NucRedfishSyncDxe/NucRedfishInventory.c:541-609 | the body reads back as exactly the properties present, in order |
| `InventoryReads.MemorySays` | meta-nuc-bios/recipes-bsp/edk2-uefipayload/files/NucRedfishPkg/NucRedfishSyncDxe/NucRedfishInventory.c:541-609 | the members are each field of the module that is set, under its Redfish name and with its own value, and no others |
| `RedfishBodies.DriveFits` | meta-nuc-bios/recipes-bsp/edk2-uefipayload/files/NucRedfishPkg/NucRedfishSyncDxe/NucRedfishInventory.c:1205-1233 | no Drive body reaches 1024 characters |
| `RedfishBodies.BuildDrivePost` | meta-nuc-bios/recipes-bsp/edk2-uefipayload/files/NucRedfishPkg/NucRedfishSyncDxe/NucRedfishInventory.c:1183-1237 | the body reads back as exactly the properties present, in order, with the capacity as a signed 64-bit number |
| `InventoryReads.DriveSays` | meta-nuc-bios/recipes-bsp/edk2-uefipayload/files/NucRedfishPkg/NucRedfishSyncDxe/NucRedfishInventory.c:1183-1237 | the same for a drive |
| `RedfishBodies.CapacityIsHonest` | meta-nuc-bios/recipes-bsp/edk2-uefipayload/files/NucRedfishPkg/NucRedfishSyncDxe/NucRedfishInventory.c:1226-1231 | the capacity is reported as it is if and only if it is below 2^63 |
| `RedfishBodies.ProcessorLength` | meta-nuc-bios/recipes-bsp/edk2-uefipayload/files/NucRedfishPkg/NucRedfishSyncDxe/NucRedfishInventory.c:845-884 | the length of a processor body as a sum over its fields |
| `RedfishBodies.BuildProcessorPost` | meta-nuc-bios/recipes-bsp/edk2-uefipayload/files/NucRedfishPkg/NucRedfishSyncDxe/NucRedfishInventory.c:815-888 | the body reads back as exactly the properties present if and only if their text fits the buffer |
| `InventoryReads.ProcessorSays` | meta-nuc-bios/recipes-bsp/edk2-uefipayload/files/NucRedfishPkg/NucRedfishSyncDxe/NucRedfishInventory.c:815-888 | the same for a processor, with its state |
| `RedfishBodies.ProcessorCanOverflow` | meta-nuc-bios/recipes-bsp/edk2-uefipayload/files/NucRedfishPkg/NucRedfishSyncDxe/NucRedfishInventory.c:845-884 | some processor's properties do not fit |
| `MemoryInventory.CapacityOf` | meta-nuc-bios/recipes-bsp/edk2-uefipayload/files/NucRedfishPkg/NucRedfishSyncDxe/NucRedfishInventory.c:273-304 | the meaning of the size field: MiB, KiB rounded down, extended, unknown or empty; always below 2^31 |
| `MemoryInventory.PopulatedExactly` | meta-nuc-bios/recipes-bsp/edk2-uefipayload/files/NucRedfishPkg/NucRedfishSyncDxe/NucRedfishInventory.c:346-353 | which sizes make a socket populated |
| `MemoryInventory.ModuleSays` | meta-nuc-bios/recipes-bsp/edk2-uefipayload/files/NucRedfishPkg/NucRedfishSyncDxe/NucRedfishInventory.c:355-405 | every field of a module is that of its record: texts up to 63 characters, both widths, the rated speed, and the configured speed unless that is missing or zero |
| `MemoryInventory.TypesByName` | meta-nuc-bios/recipes-bsp/edk2-uefipayload/files/NucRedfishPkg/NucRedfishSyncDxe/NucRedfishInventory.c:229-263 | the memory and module types stand for their SMBIOS codes and for no others |
| `MemoryInventory.CollectMemory` | meta-nuc-bios/recipes-bsp/edk2-uefipayload/files/NucRedfishPkg/NucRedfishSyncDxe/NucRedfishInventory.c:306-421 | the populated sockets in table order, all of them unless the limit is reached |
| `MemoryInventory.ModulesAreThere` | meta-nuc-bios/recipes-bsp/edk2-uefipayload/files/NucRedfishPkg/NucRedfishSyncDxe/NucRedfishInventory.c:346-353 | a module is listed if and only if some populated socket has it |
| `DriveInventory.SmbiosGetString` | meta-nuc-bios/recipes-bsp/edk2-uefipayload/files/NucRedfishPkg/NucRedfishSyncDxe/NucRedfishInventory.c:30-60 | for every string list and every number: the string with that number, counted from one, or nothing; the 8-bit counter never matters |
| `DriveInventory.CopyIdentifyString` | meta-nuc-bios/recipes-bsp/edk2-uefipayload/files/NucRedfishPkg/NucRedfishSyncDxe/NucRedfishInventory.c:904-949 | in place and in bounds: the field in reading order, cut to the buffer, without its padding, NUL-terminated |
| `DriveInventory.IdentityRoundTrip` | meta-nuc-bios/recipes-bsp/edk2-uefipayload/files/NucRedfishPkg/NucRedfishSyncDxe/NucRedfishInventory.c:922-948 | every name without padding of its own comes back from a padded field, with or without swapped words |
| `DriveInventory.FillSlot` | meta-nuc-bios/recipes-bsp/edk2-uefipayload/files/NucRedfishPkg/NucRedfishSyncDxe/NucRedfishInventory.c:967-1074 | a blank slot is filled with what the device says; a device that fails leaves the slot alone |
| `DriveInventory.DriveSays` | meta-nuc-bios/recipes-bsp/edk2-uefipayload/files/NucRedfishPkg/NucRedfishSyncDxe/NucRedfishInventory.c:967-1074 | a device whose identify data holds a model, serial number and revision is reported with exactly those, by its protocol and media type and with its media's capacity; it is reported at all exactly when model or serial number is set |
| `DriveInventory.CollectDrives` | meta-nuc-bios/recipes-bsp/edk2-uefipayload/files/NucRedfishPkg/NucRedfishSyncDxe/NucRedfishInventory.c:1076-1181 | the slots in use hold the drives to report, each as its own handle says; every other slot is blank |
| `DriveInventory.ReportedOnce` | meta-nuc-bios/recipes-bsp/edk2-uefipayload/files/NucRedfishPkg/NucRedfishSyncDxe/NucRedfishInventory.c:1142-1158 | no two reported drives share serial number and model |
| `DriveInventory.ReportedIsFirst` | meta-nuc-bios/recipes-bsp/edk2-uefipayload/files/NucRedfishPkg/NucRedfishSyncDxe/NucRedfishInventory.c:1108-1177 | every reported drive is what the first handle of its device says |
| `DriveInventory.NoneMissed` | meta-nuc-bios/recipes-bsp/edk2-uefipayload/files/NucRedfishPkg/NucRedfishSyncDxe/NucRedfishInventory.c:1108-1177 | below the limit every device that says who it is has been reported |
| `NetPolicy.BuildPayload` | meta-nuc-bios/recipes-bsp/edk2-uefipayload/files/NucRedfishPkg/RedfishEthernetInterfaceDxe/EthernetInterfaceCommon.c:333-467 | the payload of any policy: no address entry without an address, DNS servers without gaps |
| `NetPolicy.ReportSays` | meta-nuc-bios/recipes-bsp/edk2-uefipayload/files/NucRedfishPkg/RedfishEthernetInterfaceDxe/EthernetInterfaceCommon.c:333-467 | the MAC address and the DHCP switch, one entry with address, mask and gateway as set, and the name servers that are set, in order |
| `NetPolicy.Store.ConsumeStaticAddresses` | meta-nuc-bios/recipes-bsp/edk2-uefipayload/files/NucRedfishPkg/RedfishEthernetInterfaceDxe/EthernetInterfaceCommon.c:132-187 | an empty array clears all three questions; otherwise each takes its member or is cleared |
| `NetPolicy.Store.Consume` | meta-nuc-bios/recipes-bsp/edk2-uefipayload/files/NucRedfishPkg/RedfishEthernetInterfaceDxe/EthernetInterfaceCommon.c:200-291 | an unchanged ETag changes nothing; otherwise the policy is updated property by property |
| `NetPolicy.QuestionsTake` | meta-nuc-bios/recipes-bsp/edk2-uefipayload/files/NucRedfishPkg/RedfishEthernetInterfaceDxe/EthernetInterfaceCommon.c:132-291 | each question takes its own value of up to 15 characters, keeps its old one for a longer value, and is cleared by no value |
| `NetPolicy.ReportReadBack` | meta-nuc-bios/recipes-bsp/edk2-uefipayload/files/NucRedfishPkg/RedfishEthernetInterfaceDxe/EthernetInterfaceCommon.c:392-448 | reading back one's own report gives the normal form of the policy |
| `NetPolicy.NormalIsStable` | meta-nuc-bios/recipes-bsp/edk2-uefipayload/files/NucRedfishPkg/RedfishEthernetInterfaceDxe/EthernetInterfaceCommon.c:392-448 | the normal form is its own normal form, has the same report, and reads back as itself |
| `NetPolicy.MacIsNeverConsumed` | meta-nuc-bios/recipes-bsp/edk2-uefipayload/files/NucRedfishPkg/RedfishEthernetInterfaceDxe/EthernetInterfaceCommon.c:267-280 | no resource changes the MAC address |
| `NetPolicy.PolicyTransfers` | meta-nuc-bios/recipes-bsp/edk2-uefipayload/files/NucRedfishPkg/RedfishEthernetInterfaceDxe/EthernetInterfaceCommon.c:245-280 | a host takes over another policy's normal form if and only if the name servers come across |
| `NetPolicy.ApplyStaticConfig` | meta-nuc-bios/recipes-bsp/edk2-uefipayload/files/NucRedfishPkg/EthConfigDxe/EthConfigDxe.c:319-474 | the SetData calls of a static policy, in order, for every pattern of answers |
| `NetPolicy.ApplyConfig` | meta-nuc-bios/recipes-bsp/edk2-uefipayload/files/NucRedfishPkg/EthConfigDxe/EthConfigDxe.c:481-531 | the SetData calls of a stored policy; none with DHCP off and no address |
| `NetPolicy.PolicyPreserved` | meta-nuc-bios/recipes-bsp/edk2-uefipayload/files/NucRedfishPkg/EthConfigDxe/EthConfigDxe.c:434-462 | the calls are the same for a policy and its normal form, for every address parser and every answer |
| `NetPolicy.ReadBackAppliesTheSame` | meta-nuc-bios/recipes-bsp/edk2-uefipayload/files/NucRedfishPkg/EthConfigDxe/EthConfigDxe.c:496-523 | reporting a policy and reading it back never changes the calls |
| `NetPolicy.FailedStaticKeepsNic` | meta-nuc-bios/recipes-bsp/edk2-uefipayload/files/NucRedfishPkg/EthConfigDxe/EthConfigDxe.c:361-428 | a static policy that does not take leaves the NIC as it was if and only if the policy switch was not reached or the NIC was static already |
| `NetPolicy.StaticTakesEffect` | meta-nuc-bios/recipes-bsp/edk2-uefipayload/files/NucRedfishPkg/EthConfigDxe/EthConfigDxe.c:361-462 | a static policy that takes gives the NIC exactly its address and mask, its gateway if that is unicast under the mask, and those of its two name servers that are addresses, in order; what is not given or refused stays |
| `NetPolicy.DhcpTakesEffect` | meta-nuc-bios/recipes-bsp/edk2-uefipayload/files/NucRedfishPkg/EthConfigDxe/EthConfigDxe.c:512-520 | a DHCP policy that is accepted switches the NIC to DHCP, and touches nothing else |
| `NetPolicy.UnmanagedKeepsNic` | meta-nuc-bios/recipes-bsp/edk2-uefipayload/files/NucRedfishPkg/EthConfigDxe/EthConfigDxe.c:496-511 | without the protocol, or without DHCP and without an address, nothing is touched |
| `NetPolicy.SwitchesExactly` | meta-nuc-bios/recipes-bsp/edk2-uefipayload/files/NucRedfishPkg/EthConfigDxe/EthConfigDxe.c:336-365 | the NIC is asked to go static if and only if DHCP is off, address and mask are addresses, the mask has 1 to 32 leading ones and the address is unicast under it |
| `NetPolicy.ClaimIsFirst` | meta-nuc-bios/recipes-bsp/edk2-uefipayload/files/NucRedfishPkg/EthConfigDxe/EthConfigDxe.c:607-663 | the NIC configured is a claimable one with none before it; none exactly when none is claimable |
| `NetPolicy.EthDriver.OnIp4Config2Installed` | meta-nuc-bios/recipes-bsp/edk2-uefipayload/files/NucRedfishPkg/EthConfigDxe/EthConfigDxe.c:607-663 | the queue is drained; nothing is configured once a NIC is, otherwise the first claimable one |
| `NetPolicy.Notify` | meta-nuc-bios/recipes-bsp/edk2-uefipayload/files/NucRedfishPkg/EthConfigDxe/EthConfigDxe.c:607-663 | a driver fed with every sequence of notifications configures the first non-USB NIC with a MAC node of all of them, and no other |
| `SerialRing.Drive` | meta-nuc-bios/recipes-bsp/edk2-uefipayload/files/NucRedfishPkg/UsbCdcAcmDxe/SerialIo.c:126-152 | the ring driven through every run of polls, reads and resets behaves as the queue; over a reset-free run bytes read plus bytes buffered are the bytes buffered at first plus all bytes delivered, in order, if and only if no failing transfer carried bytes; never more than 4095 are held |
| `SerialRing.EventsExactly` | meta-nuc-bios/recipes-bsp/edk2-uefipayload/files/NucRedfishPkg/UsbCdcAcmDxe/SerialIo.c:106-153 | a poll stores what a good transfer brings exactly when a whole packet fits into 4095 bytes; a read hands out the oldest bytes, as many as asked for or all there are |
| `SerialRing.Device.RxCount` | meta-nuc-bios/recipes-bsp/edk2-uefipayload/files/NucRedfishPkg/UsbCdcAcmDxe/SerialIo.c:33-43 | the length of the queue |
| `SerialRing.Device.RxFree` | meta-nuc-bios/recipes-bsp/edk2-uefipayload/files/NucRedfishPkg/UsbCdcAcmDxe/SerialIo.c:54-60 | room and contents add up to 4095 |
| `SerialRing.Device.RxPut` | meta-nuc-bios/recipes-bsp/edk2-uefipayload/files/NucRedfishPkg/UsbCdcAcmDxe/SerialIo.c:74-98 | appends the bytes that fit, in order |
| `SerialRing.Device.Poll` | meta-nuc-bios/recipes-bsp/edk2-uefipayload/files/NucRedfishPkg/UsbCdcAcmDxe/SerialIo.c:106-153 | one step of the queue; a poll that is made never drops a byte |
| `SerialRing.Device.Read` | meta-nuc-bios/recipes-bsp/edk2-uefipayload/files/NucRedfishPkg/UsbCdcAcmDxe/SerialIo.c:449-478 | hands out the oldest bytes; success exactly when all that were wanted were there |
| `SerialRing.Device.GetControl` | meta-nuc-bios/recipes-bsp/edk2-uefipayload/files/NucRedfishPkg/UsbCdcAcmDxe/SerialIo.c:356-382 | input-buffer-empty exactly when the queue is empty |
| `SerialRing.Device.Reset` | meta-nuc-bios/recipes-bsp/edk2-uefipayload/files/NucRedfishPkg/UsbCdcAcmDxe/SerialIo.c:207-220 | empties the queue, keeps the line state, cannot fail |
| `AcmDriver.IsSibling` | meta-nuc-bios/recipes-bsp/edk2-uefipayload/files/NucRedfishPkg/UsbCdcAcmDxe/UsbCdcAcmDxe.c:154-169 | true exactly for another interface of the same device that ends in a USB node |
| `AcmDriver.FirstEligibleIsFirst` | meta-nuc-bios/recipes-bsp/edk2-uefipayload/files/NucRedfishPkg/UsbCdcAcmDxe/UsbCdcAcmDxe.c:138-203 | the data interface is an eligible candidate with none before it; none exactly when none is eligible |
| `AcmDriver.FindDataInterface` | meta-nuc-bios/recipes-bsp/edk2-uefipayload/files/NucRedfishPkg/UsbCdcAcmDxe/UsbCdcAcmDxe.c:93-207 | finds that candidate, and of everything opened on the way only it stays open |
| `AcmDriver.Dev.ResolveBulkEndpoints` | meta-nuc-bios/recipes-bsp/edk2-uefipayload/files/NucRedfishPkg/UsbCdcAcmDxe/UsbCdcAcmDxe.c:218-258 | the last usable endpoint of each direction; success exactly with a pair |
| `AcmDriver.LastBulkIsLast` | meta-nuc-bios/recipes-bsp/edk2-uefipayload/files/NucRedfishPkg/UsbCdcAcmDxe/UsbCdcAcmDxe.c:218-258 | the endpoint of a direction is a usable one with none after it; none exactly when none is usable |
| `AcmDriver.ReachesExactly` | meta-nuc-bios/recipes-bsp/edk2-uefipayload/files/NucRedfishPkg/UsbCdcAcmDxe/UsbCdcAcmDxe.c:317-411 | what Start needs to get as far as publishing: controller, a data-class sibling interface that opens, and a bulk endpoint each way |
| `AcmDriver.InstallSerialIo` | meta-nuc-bios/recipes-bsp/edk2-uefipayload/files/NucRedfishPkg/UsbCdcAcmDxe/SerialIo.c:480-616 | for every pattern of failures: the port's resources on success, nothing on failure, except the interfaces exactly when taking them back fails |
| `AcmDriver.Start` | meta-nuc-bios/recipes-bsp/edk2-uefipayload/files/NucRedfishPkg/UsbCdcAcmDxe/UsbCdcAcmDxe.c:317-411 | for every pattern of failures: success exactly when every step succeeds, and then all resources are held; otherwise what was held before, except the interfaces exactly when taking them back fails |
| `AcmDriver.StopChild` | meta-nuc-bios/recipes-bsp/edk2-uefipayload/files/NucRedfishPkg/UsbCdcAcmDxe/UsbCdcAcmDxe.c:424-486 | releases everything held for the port, or leaves it published with what could be taken again |
| `AcmDriver.Resume` | meta-nuc-bios/recipes-bsp/edk2-uefipayload/files/NucRedfishPkg/UsbCdcAcmDxe/SerialIo.c:646-674 | after a failed uninstall the tie and the event are back exactly when their services succeed |
| `AcmDriver.Lifecycle` | meta-nuc-bios/recipes-bsp/edk2-uefipayload/files/NucRedfishPkg/UsbCdcAcmDxe/UsbCdcAcmDxe.c:317-486 | Start, any number of failing Stops, a successful one and the controller's Stop leave exactly what was held before |
| `FlashLayout.Decode` | scripts/ifd-layout.py:28-53 | the regions the descriptor declares; too small an image and a missing signature are refused |
| `FlashLayout.RegisterRoundTrip` | scripts/ifd-layout.py:48-51 | a region register decodes to the bounds it was made for |
| `FlashLayout.DescriptorRoundTrip` | scripts/ifd-layout.py:28-53 | an image with the signature, the register base and five registers in their places decodes to their bounds as fd, bios, me, gbe and pd |
| `FlashLayout.ExpectBios` | scripts/ifd-layout.py:70-84 | accepted exactly when the first used BIOS region has the expected bounds |
| `FlashLayout.ExpectedImagePasses` | scripts/ifd-layout.py:70-84 | of such images, exactly those with a BIOS register of 0x1a0000 to 0x7fffff pass |
| `FlashLayout.DescriptorAgrees` | scripts/ifd-layout.py:28-53 | images that agree below the BIOS region decode alike |
| `FlashLayout.RequireBiosRegionOnly` | scripts/nuc-spi.sh:68-83 | accepted exactly when the head is erased or equals the backup's |
| `FlashLayout.MergeInPlace` | scripts/nuc-spi.sh:148-154 | the slice assignment takes exactly the region from the ROM |
| `FlashLayout.CmdMerge` | scripts/nuc-spi.sh:137-158 | the guarded steps of the merge, with every refusal |
| `FlashLayout.MergesExactly` | scripts/nuc-spi.sh:137-158 | a merge goes through if and only if both images have 8 MiB, the backup passes the check, and the ROM is erased below the region or equals the backup there |
| `FlashLayout.MergeKeepsTheRest` | scripts/nuc-spi.sh:141-154 | only the BIOS region changes, the descriptor decodes as before, and the merged image passes the same check |
| `FlashLayout.MergeBackRestores` | scripts/nuc-spi.sh:141-154 | merging the stock image back is accepted and restores it byte for byte |
| `FlashLayout.MergeIsIdempotent` | scripts/nuc-spi.sh:141-154 | merging the same ROM again changes nothing |
| `FlashLayout.FlashLeavesTheMerge` | scripts/nuc-spi.sh:133-136 | the chip holds the merged image after the region-limited write if and only if it held the stock image outside the region |
| `FlashLayout.FullRomIsTheMerge` | scripts/nuc-spi.sh:62-82 | a ROM is itself the merged image if and only if it embeds the backup's factory regions |

## Left out

- Redfish HTTP exchanges, retries, stalls, task priority levels, DEBUG output and NULL-pointer checks: each callback is one step and its services are answers.
- OsIndications, connecting of USB storage before the scan and the on-screen messages: they do not change what a scan does to files, flash and resets.
- Changes of a directory between listing it and attempting its files within one volume: the answers of an attempt are free, but the names are those listed.
- Character options in the opcode stream; nested forms appear there as the subtitles the code makes of them.
- CfrForms.WalkForm: a character option whose default this reader does not find must not be the one looked up, because the code asserts that it finds it; builds in which that assertion stops the walk at every such option are not modelled.
- CfrIfr.FormShownAsMeant: the only-if half is for lists of fewer than 65536 values, because a longer one also wraps its count and the browser then reads the values themselves as opcodes; a form HOB, whose length has 16 bits, cannot hold one.
- Options of a form whose own conditional is set: the form's conditional covers its subtitle only, which is what the code emits.
- The firmware-inventory PATCH, whose version text is printed without escapes, and the rendering of GUIDs and UUIDs: a UUID is a text of at most 36 characters here.
- Collecting processors and the type 0 and type 1 records: the bodies are proved for all field values within the bounds above.
- Json.ParsePrint: the reader takes compact text only, without white space, fractions, exponents, booleans or null, because the bodies contain none.
- DriveInventory.CopyIdentifyString: requires an even width for swapped fields, as its own description does.
- CfrForms.ParseMiscInfo: a record that runs past the table ends the split with a result of its own, because the code would read beyond the table there.
- UsbCdcAcmWrite, SetAttributes and line coding: transfers with no state of their own.
- Allocation failures inside BuildEthernetInterfacePayload and questions that are not published.
- EthernetInterfaceDxe, the collection driver, credential and host-interface libraries, and the board's own tables: glue and constants.
- The flashrom invocations of the script other than the region-limited write, and the printed table of regions.
