# Trusted Firmware-A in Dafny

A model of the small, dense cores of Trusted Firmware-A, written in Dafny 4.11, with proofs of what they
promise: byte I/O over a block device, the BL1 firmware-update service, the EL3 exception priorities, the boot
chain (hand-off list, chain of trust, roll-back counters), call dispatch, device-tree address translation, and
the transfer arithmetic of SCMI, USB, UFS and the delay timer.  `dafny verify dfyconfig.toml` checks all of it.

## How the model is built

Code that computes a value is a function.  Code that updates fields, tables or buffers in place is a class or a
method, proved against a function on values; what the source promises is then proved about that function, over
every input or every run.  A failed assertion or a panic of the source ends a run (`Stop`, `Panic`, `Stopped`,
`Halted`).  Results of hardware, storage, platform hooks and cryptography are inputs, or are chosen freely by a
method whose contract is all the callers know.  Integer widths are written out where they matter.

| file | models |
|---|---|
| `Bits.dfy`, `Bytes.dfy`, `Common.dfy`, `Runs.dfy` | bit tricks on naturals, byte sequences, shared types, induction along runs |
| `BlockIo.dfy` | `drivers/io/io_block.c` |
| `FwuModel.dfy`, `FwuService.dfy` | `bl1/bl1_fwu.c` as a state machine and in place |
| `FwuInvariant.dfy`, `FwuScan.dfy`, `FwuStops.dfy`, `FwuReplies.dfy` | its table of loaded images, its overlap check, the calls that end a run, the replies of all others |
| `FwuIntegrity.dfy`, `FwuRegimes.dfy`, `FwuFitting.dfy`, `FwuScript.dfy`, `FwuExactness.dfy` | what copied images hold, over whole runs |
| `EhfModel.dfy`, `EhfRuns.dfy`, `EhfNesting.dfy`, `EhfCpu.dfy` | `bl31/ehf.c` |
| `Handoff.dfy` | `common/desc_image_load.c` |
| `AuthMod.dfy`, `ChainOfTrust.dfy` | `drivers/auth/auth_mod.c`, `common/bl_common.c` |
| `AddressTranslation.dfy` | `common/fdt_wrappers.c` |
| `RuntimeSvc.dfy` | `common/runtime_svc.c` |
| `ScmiPaging.dfy`, `ScmiChannel.dfy` | `drivers/scmi-msg/clock.c`, `base.c`, `smt.c` |
| `UsbEp0.dfy`, `UfsPrdt.dfy`, `DelayTimer.dfy` | `drivers/usb/usb_device.c`, `drivers/ufs/ufs.c`, `drivers/delay_timer/` |

## Where the code differs from what one would expect

The model follows the code.  The members named at each point show it and say when it matters.

- Firmware update: the count of copied bytes outlives a failed authentication and the end of execution.  If such an
  image is then authenticated in place, which for a secure image takes a secure image that runs, and reset, the service
  clears bytes that may belong to another image by then.  Whether this can happen depends on the platform, and
  `FwuExactness.IntactExactly` says exactly on which ones.  A platform is fragile (`FwuFitting.Fragile`) if the table has
  two slots and two secure images can share an address, such that one of them is executable; or some image can be
  launched and one of the two starts at least two bytes behind the other; or there are three slots and an executable
  image can be in memory beside a copy of one of the two.  So it never is with isolated images or without an executable
  secure image (`FwuExactness.CommonPlatforms`).  On every platform copied images stay intact in runs that never
  authenticate in place an image with a count (`FwuRegimes.ExecutedImagesIntact`).
- Firmware update: a failing pre-load hook leaves an image listed in RESET (`FwuStops.RefusedHookRun`), and nothing
  else does (`FwuInvariant.ListedIffLoaded`, `FwuIntegrity.RunListed`).
- Firmware update: after such a refusal, and with a one-byte image loaded, the next request for another image fails an
  assertion of the overlap check (`FwuStops.OneByteRun`).  For every call, `FwuStops.StopsExactly` says exactly
  when it ends the run.
- Firmware update: resuming an image that was interrupted and reset fails an assertion (`FwuStops.StaleResumeRun`) where
  `docs/components/firmware-update.rst:419` promises -EPERM; so does resetting the boot-time image
  (`FwuStops.FittingStopsExactly`), against `docs/components/firmware-update.rst:484`.
- Exception priorities: the comment at `bl31/ehf.c:201-204` promises the mask of the next priority after a
  deactivation; the code sets the mask of the one just deactivated (`EhfRuns.MaskAfterDeactivation`), so that the
  next activation has to be above that one too (`EhfRuns.NextActivation`, `EhfRuns.ReactivationRun`); which nestings
  complete is said by `EhfNesting.BracketsComplete`.
- Exception priorities: what the normal world writes to its mask while EL3 holds it stashed makes the return panic or is
  lost, unless it is the stashed value (`EhfRuns.WriteUnderStash`, `EhfRuns.StashWriteRun`, `EhfRuns.LostWriteRun`).
- Block I/O: an access is checked against the size of the region by its length, not by its end
  (`BlockIo.WriteStaysInRegion`, `BlockIo.ReadStaysInRegion`, `BlockIo.WriteNewByte`); `BlockIo.WritePastEnd` is a call that overruns.
- Image loading: a reported size of zero and a short read come back as success (`ChainOfTrust.ShortReadSucceeds`,
  `ChainOfTrust.ZeroSizeSucceeds`); `ChainOfTrust.WholeExactly` says when success means a whole image.
- Address translation: windows that reach the top of the 64-bit space never hit (`AddressTranslation.HitExactly`,
  `AddressTranslation.SearchIsFirstInside`).  Of numbers with three or more cells only two cells are read, and of
  those without cells the one that follows (`AddressTranslation.ReadCellsExactly`).
- Clock rates: 16 bits tell how many rates remain, so lists of some lengths look complete too early
  (`ScmiPaging.RatesRebuilt`).
- SCMI answers: the rates handler never looks at the size of the output buffer (`ScmiPaging.RatesInside`); in the
  protocol list a buffer smaller than the header makes the room wrap around (`ScmiPaging.AnswerInside`), and the
  reported size is rounded up past a buffer that is not a whole number of words (`ScmiPaging.ReportInside`).
- SCMI channels: giving up a message after entering its channel leaves the channel busy for good
  (`ScmiChannel.AbandonedExactly`, `ScmiChannel.AbandonedForever`, `ScmiChannel.AbandoningRun`).
- Roll-back counters: of several counter methods of an image only the last one moves its platform counter
  (`AuthMod.AcceptedRaises`, `AuthMod.FirstCounterStays`); `AuthMod.CaughtUpExactly` says when that is enough.

## Model

| member | source | states |
|---|---|---|
| BlockIo.BlockFile.Read | drivers/io/io_block.c:244-348 | for every device content, position, length and pattern of short transfers: with k the bytes by which the position moved, the destination starts with exactly the next k device bytes and is otherwise unchanged; success exactly when k is the whole length; an I/O error only when a driver read does not get past the skip bytes, so with every driver that moves at least a block inside the device the call succeeds; ends |
| BlockIo.BlockFile.Write | drivers/io/io_block.c:356-492 | with k the bytes by which the position moved, the device is the old one with exactly the first k user bytes in place, skip and padding bytes included in what is unchanged; success exactly when k is the whole length; an I/O error only when a fetch yields less than a block or a commit does not get past the skip bytes, so with every driver that moves at least a block inside the device the call succeeds |
| BlockIo.BlockFile.ReadBlocks | drivers/io/io_block.c:282-343 | one driver request extends what has been read by the useful part of the bounce buffer; nothing is delivered only if the driver read does not get past the skip bytes |
| BlockIo.BlockFile.FetchBlocks | drivers/io/io_block.c:318-340 | exactly what a driver read leaves behind the skip bytes, up to the bytes wanted, extends what has been read, however short the read is |
| BlockIo.BlockFile.WriteBlocks | drivers/io/io_block.c:395-487 | one read-modify-write round commits the next user bytes and nothing else; the -EIO exits leave the device as it was and are taken only after a fetch of less than a block or a commit that does not get past the skip bytes |
| BlockIo.BlockFile.CommitBlocks | drivers/io/io_block.c:467-483 | copying the user bytes in and writing the prepared buffer changes exactly the user bytes the write gets to behind the skip bytes, however short it is |
| BlockIo.BlockFile.PrepareBounce | drivers/io/io_block.c:436-465 | whenever bytes before or after the user bytes have to be preserved, whole blocks holding them are in the bounce buffer before anything is written; it fails only if the driver read yields less than a block |
| BlockIo.BlockFile.PlanRequest | drivers/io/io_block.c:291-316 | skip bytes and block number make up the position, the request is a whole number of blocks that fits the buffer, and covers what is left unless the buffer is too small |
| BlockIo.BlockFile.Open | drivers/io/io_block.c:127-148 | an aligned region becomes the current one, at position zero |
| BlockIo.BlockFile.Seek | drivers/io/io_block.c:151-172 | absolute and relative positions, and -EINVAL without effect for any other mode |
| BlockIo.WriteSeekRead | drivers/io/io_block.c:151-492 | a successful write, a seek back and a successful read of the same length return the bytes written; with a driver that moves at least a block inside the device all three succeed |
| BlockIo.WriteStaysInRegion | drivers/io/io_block.c:384-387 | a request leaves what lies behind the region alone, for all user bytes and every behaviour of the driver, if and only if it ends inside the region or the device has nothing to reach behind it |
| BlockIo.ReadStaysInRegion | drivers/io/io_block.c:272-274 | what a read delivers is decided by the device up to the end of the region, under every behaviour of the driver, if and only if the same condition holds |
| BlockIo.WriteNewByte | drivers/io/io_block.c:356-492 | of the call: if the last user byte is new and the driver moves at least a block inside the device, what lies behind the region is kept if and only if the request ends inside |
| BlockIo.WritePastEnd | drivers/io/io_block.c:384-387 | a write of two bytes at the last position of a region of two lands behind the region |
| BlockIo.SkipAndBlock | drivers/io/io_block.c:291-297 | masking with the block size and dividing by it split a position into block number and skip, for every power-of-two block size and aligned base |
| BlockIo.AreaInside | drivers/io/io_block.c:299-316 | a request rounded up to whole blocks stays in a device of whole blocks that holds the last byte wanted |
| BlockIo.RoundDown | drivers/io/io_block.c:447-452 | clearing the low bits gives the greatest whole number of blocks not above the value |
| BlockIo.CommitRound | drivers/io/io_block.c:467-483 | committing any prefix of the prepared bounce buffer changes user bytes only, and nothing if it stops inside the skip bytes |
| BlockIo.Driver.Read | include/drivers/io/io_block.h:12-16 | the contract of the low-level read: at most the request, the first n bytes filled; inside the device no less than the driver promises |
| BlockIo.Driver.Write | include/drivers/io/io_block.h:12-16 | the contract of the low-level write: exactly the first n bytes committed; inside the device no less than the driver promises |
| Bits.MaskIsMod | drivers/io/io_block.c:26 | for every number the power-of-two macro accepts, masking with one less is the remainder |
| Bits.ClearIsRoundDown | drivers/io/io_block.c:314-315 | masking with the complement rounds down to a multiple |
| FwuRegimes.ExecutedImagesIntact | bl1/bl1_fwu.c:224-745 | whoever calls, in every run on a platform with isolated images, and in every run without in-place authentication of images that count copied bytes: a copied image past authentication holds exactly the bytes that were authenticated, which are its clipped blocks in order; copied images never overlap |
| FwuExactness.IntactExactly | bl1/bl1_fwu.c:224-745 | all runs in which the secure world calls exactly while a secure image executes keep copied images intact if and only if the platform is not fragile, for every platform |
| FwuExactness.EndangeredBreaks | bl1/bl1_fwu.c:712-731 | on every fragile platform, a run with fitting callers that leaves a copied image past authentication with a byte that was never authenticated |
| FwuExactness.RunnerRun | bl1/bl1_fwu.c:411-439 | two slots, and an executable image shares an address with another: it executes, has the other one authenticated in place, and is interrupted; the reset of the other one clears its bytes |
| FwuExactness.LateRun | bl1/bl1_fwu.c:164-219 | two slots: an image authenticated in place is checked for overlaps at its new size and cleared at its old one |
| FwuExactness.BesideRun | bl1/bl1_fwu.c:411-439 | three slots: a third image executes beside the one that loses bytes |
| FwuExactness.StagedBreaks | bl1/bl1_fwu.c:200-207 | three slots and images of one byte: the third image was authenticated in place itself |
| FwuExactness.CommonPlatforms | bl1/bl1_fwu.c:107-116 | isolated images and platforms without a secure image to launch are not fragile; two slots and an executable image that shares an address are |
| FwuFitting.FittingRunsIntact | bl1/bl1_fwu.c:224-745 | on every other platform, every run with fitting callers keeps all copied images intact and apart |
| FwuFitting.GuardStep | bl1/bl1_fwu.c:58-100 | every call with a fitting caller keeps images that can execute away from copies that share addresses |
| FwuFitting.RunOneRuns | bl1/aarch64/bl1_exceptions.S:273-274 | over every run with fitting callers at most one secure image executes, the one to resume |
| FwuIntegrity.StepIntegrity | bl1/bl1_fwu.c:58-100 | every call keeps contents, origins and separation of copied images, unless it brings a copied image together with bytes an image authenticated in place still counts |
| FwuIntegrity.CopyIntegrity | bl1/bl1_fwu.c:321-361 | a successful copy extends the concatenation of blocks and touches no other image |
| FwuScan.ClearMeansApart | bl1/bl1_fwu.c:164-219 | when the overlap check passes, every other listed image that is not empty has more than one byte, ends before the last address and lies apart |
| FwuScan.VerdictClear | bl1/bl1_fwu.c:164-219 | the overlap check passes if and only if it goes on from every listed image |
| FwuIntegrity.AuthCopiedIntegrity | bl1/bl1_fwu.c:404-410 | authentication of a copied image records what passed, or clears its own range only |
| FwuIntegrity.ResetIntegrity | bl1/bl1_fwu.c:692-745 | a reset clears no byte of another copied image |
| FwuIntegrity.RunTracked | bl1/bl1_fwu.c:112-219 | at every point of every run: no id twice, every image outside RESET is listed (the boot-time image apart), COPYING means 0 < copied < size <= max, COPIED means copied = size, the image to resume is secure and executable |
| FwuInvariant.StepTracked | bl1/bl1_fwu.c:58-100 | every call keeps the agreement of table and states |
| FwuIntegrity.RunListed | bl1/bl1_fwu.c:337-349 | throughout a run images are listed exactly while they are out of RESET, if and only if the pre-load hook never alone refuses a copy |
| FwuInvariant.ListedIffLoaded | bl1/bl1_fwu.c:337-349 | an image is listed if and only if it is not in RESET, and a call breaks this if and only if it is a copy refused by the pre-load hook alone |
| FwuStops.StopsExactly | bl1/bl1_fwu.c:58-745 | for every call in every reachable state: the run ends if and only if a first copy request gets to a slot whose image is in RESET, has one byte or goes beyond the last address, a verified image is refused by the post-load hook, or an image is resumed, completed or reset in the wrong state; the assertions on world, executability and listing never fail |
| FwuStops.OneByteRun | bl1/bl1_fwu.c:200-207 | on every platform with two secure images, a run that copies one byte of the first and ends at the request for the second |
| FwuStops.RefusedHookRun | bl1/bl1_fwu.c:342-349 | on every platform with a secure image, a run that leaves it listed in RESET, after which a request for any other secure image ends the run |
| FwuScan.ScanTrips | bl1/bl1_fwu.c:183-216 | the overlap check fails an assertion if and only if some slot trips it and all slots before are empty, the image's own, or hold images that are empty or apart |
| FwuStops.RunStopsExactly | bl1/bl1_fwu.c:58-745 | the same at the end of every run |
| FwuStops.FittingStopsExactly | bl1/bl1_fwu.c:552-742 | with fitting callers the assertions for secure callers never fail, and a reset stops if and only if it is of the boot-time image |
| FwuStops.StaleResumeRun | bl1/bl1_fwu.c:562-583 | on every platform with an image to launch, a run that ends at the resumption of an image that was interrupted and reset |
| FwuReplies.RepliesExactly | bl1/bl1_fwu.c:58-745 | for every call in every reachable state and every reply: the call is answered with it if and only if its condition on state and call holds; a copy succeeds if and only if the normal world asks for a known secure image, source and block are in order, the source is mapped, the table has room, and the image is COPYING, or in RESET with a fitting size, no listed image in the way and a willing hook; likewise for the refusals and for the five other calls |
| FwuReplies.RunRepliesExactly | bl1/bl1_fwu.c:58-745 | the same for the next call of every run |
| FwuReplies.BlockwiseCopy | bl1/bl1_fwu.c:224-362 | copying an image from RESET in any sequence of blocks: all calls are served if and only if each finds bytes missing; then memory holds the blocks one behind the other, cut to the size, the image is COPIED exactly if they fill it, and nothing else changed |
| FwuReplies.AnyCutCopies | bl1/bl1_fwu.c:224-362 | every cut of an image into blocks that are not empty is served up to COPIED, with the image in memory |
| FwuReplies.RestServed | bl1/bl1_fwu.c:255-358 | the same from the middle of an image on |
| FwuReplies.CopyRefused | bl1/bl1_fwu.c:224-349 | a refused copy changes no memory, no state and only the sizes of its own image |
| FwuReplies.RequestRefused | bl1/bl1_fwu.c:367-745 | every other call refused with -EPERM or -ENOMEM changes nothing |
| FwuReplies.FailedAuthentication | bl1/bl1_fwu.c:441-470 | a copied image that fails authentication is zeroed, all of it and nothing beyond, unlisted and in RESET |
| FwuReplies.AuthenticatedInPlace | bl1/bl1_fwu.c:411-498 | an image authenticated in place is listed with the size given, and memory is left alone |
| FwuReplies.ResetUndoesCopy | bl1/bl1_fwu.c:692-745 | a reset gives back table, states and the image to resume as before the copy, and zeroes exactly the copied bytes |
| FwuReplies.ResetUndoesAuthentication | bl1/bl1_fwu.c:692-745 | a reset takes back an authentication in place, and zeroes the bytes the image still counted |
| FwuReplies.ResumeRoundTrip | bl1/bl1_fwu.c:552-614 | interrupting and resuming an image gives the state back |
| FwuReplies.ExecuteThenDone | bl1/bl1_fwu.c:503-671 | executing and completing an image leaves it in RESET and unlisted, no image to resume, and nothing else changed |
| FwuInvariant.AddFacts | bl1/bl1_fwu.c:120-139 | adding keeps the table free of duplicates, adds exactly this id, and fails exactly if it is neither there nor has a free slot |
| FwuInvariant.RemoveFacts | bl1/bl1_fwu.c:145-158 | removing takes out exactly this id, and fails exactly if it is not there |
| FwuInvariant.AddRemove | bl1/bl1_fwu.c:120-158 | removing undoes adding, slot by slot |
| FwuModel.StepKeepsBasic | bl1/bl1_fwu.c:255-358 | sizes recorded for an image fit its state and its memory after every call |
| FwuService.Service.FindSlot | bl1/bl1_fwu.c:125-128 | the search loop finds the first slot with the id |
| FwuService.Service.AddId | bl1/bl1_fwu.c:120-139 | refines the table operation of the model |
| FwuService.Service.RemoveId | bl1/bl1_fwu.c:145-158 | refines the table operation of the model |
| FwuService.Service.ScanOverlaps | bl1/bl1_fwu.c:164-219 | the loop gives the verdict of the first slot that is not clear |
| FwuService.Service.MoveBlock | bl1/bl1_fwu.c:321-361 | reply, table, descriptors and memory of the copying half of a copy call |
| FwuService.Service.ImageCopy | bl1/bl1_fwu.c:224-362 | reply and new state of the copy call, with every refusal, are those of the model |
| FwuService.Service.ImageAuth | bl1/bl1_fwu.c:367-498 | reply and new state of the authentication call are those of the model |
| FwuService.Service.ImageExecute | bl1/bl1_fwu.c:503-546 | reply and new state of the execution call are those of the model |
| FwuService.Service.ImageResume | bl1/bl1_fwu.c:552-614 | reply and new state of the resumption call are those of the model |
| FwuService.Service.SecureImageDone | bl1/bl1_fwu.c:619-671 | reply and new state of the completion call are those of the model |
| FwuService.Service.ImageReset | bl1/bl1_fwu.c:692-745 | reply and new state of the reset call are those of the model |
| EhfRuns.NormalWorldMask | bl31/ehf.c:231-313 | in every run in which the normal world writes nothing else over a stashed mask, it runs unmasked only with the mask it last had and nothing stashed |
| EhfRuns.HandsOffNeeded | bl31/ehf.c:274-313 | after any other write, EL3 can complete the interrupt and return, and that panics or leaves the normal world unmasked without its mask |
| EhfRuns.MaskBelowTop | bl31/ehf.c:99-218 | in every run at all: with priorities active the mask is at most the top one, and the panic at line 211 is unreachable |
| EhfRuns.StepCapped | bl31/ehf.c:99-359 | every event keeps the bound on the mask, whatever the normal world writes |
| EhfRuns.ClosedPanics | bl31/ehf.c:211-302 | no such run ends in the panics at lines 211, 251 and 302 or the assertion at line 245 |
| EhfRuns.LastDeactivationRestores | bl31/ehf.c:146-207 | in every run, from the first activation to the last deactivation, whatever happens in between, the priority mask comes back to its value |
| EhfRuns.BracketStep | bl31/ehf.c:146-207 | the first activation saves the mask, the last deactivation puts it back, no event in between touches it |
| EhfRuns.StepKeeps | bl31/ehf.c:99-359 | every event keeps the relation of bitmap, mask and stashed masks |
| EhfRuns.FirstActivation | bl31/ehf.c:110-144 | with nothing active, an activation goes through if and only if no higher priority is running and the priority exists |
| EhfRuns.MaskAfterDeactivation | bl31/ehf.c:201-209 | the mask after a deactivation: the saved one if nothing is left, otherwise the one just deactivated, strictly below the next |
| EhfRuns.NextActivation | bl31/ehf.c:134-144 | the next activation passes if and only if it is above the priority just deactivated |
| EhfRuns.ReactivationRun | bl31/ehf.c:134-209 | on every platform with two priorities, a run that activates both, deactivates the higher one and cannot activate it again |
| EhfRuns.WriteUnderStash | bl31/ehf.c:295-306 | after a write under a stashed mask the return to the normal world panics if and only if the value is neither the stash nor the mask set on entry, and leaves it in force if and only if it is the stash |
| EhfRuns.StashWriteRun | bl31/ehf.c:279-306 | on every platform, for every other value, a run that panics so |
| EhfRuns.LostWriteRun | bl31/ehf.c:295-306 | on every platform, a run in which the mask set on entry is written and lost |
| EhfRuns.PreemptionMask | bl31/ehf.c:365-388 | preemption is reported as allowed only with the mask of the normal world in force |
| EhfNesting.GoesExactly | bl31/ehf.c:99-359 | at every point of every run, whatever the normal world writes, each event goes through if and only if its condition holds: a deactivation if and only if the priority exists, is above the running one and was activated last; an activation if and only if it exists, is above the running one and, with priorities active, above the mask |
| EhfNesting.BracketsComplete | bl31/ehf.c:99-218 | at every point of every run at EL3: nested activations and deactivations of any depth complete if and only if each nested one is above the one around it and above those nested there before it; then activations, stash and saved mask are as before, and the mask is as before if nothing was active and otherwise the priority of the last one |
| EhfNesting.NestingExactly | bl31/ehf.c:99-218 | the same from every state that meets the invariants of runs |
| EhfNesting.RunBeneath | bl31/ehf.c:99-359 | in every run at all the mask beneath the activations, and the stashed one, are never secure |
| EhfNesting.StashExactly | bl31/ehf.c:231-359 | in every run at all a mask is stashed if and only if the last exit, entry or permission that counted was an exit |
| EhfNesting.ShieldHolds | bl31/ehf.c:231-261 | in every run at all, from an unmasked exit from the normal world until it is entered or allowed to preempt, the mask beneath the activations is the one that keeps non-secure interrupts out and the mask of the normal world is stashed |
| EhfNesting.PreemptionExactly | bl31/ehf.c:365-388 | preemption is reported as allowed if and only if no secure interrupt runs, no priority is active and the mask is not held back; then the mask of the normal world is in force |
| EhfNesting.AllowGivesBack | bl31/ehf.c:326-359 | preemption can be allowed if and only if the mask is held back and no priority is active; then the mask of the normal world is in force and preemption is reported as allowed unless a secure interrupt runs |
| EhfModel.ActivatePushes | bl31/ehf.c:122-132 | activation pushes its index on the strictly decreasing stack the bitmap stands for |
| EhfModel.DeactivatePops | bl31/ehf.c:189-199 | deactivation pops the top of that stack |
| EhfModel.StackFromShape | bl31/ehf.c:80-87 | the stack is strictly decreasing and counting trailing zeros gives its top |
| EhfModel.StackFromMembers | bl31/ehf.c:34-34 | the members of the stack are the set bits |
| EhfModel.DeactivateUndoesActivate | bl31/ehf.c:99-218 | a matching deactivation gives the bitmap back, and the mask if it was the only activation |
| Bits.ClearLowest | bl31/ehf.c:198-199 | and-ing with one less removes exactly the right-most bit |
| EhfCpu.ExceptionData.ActivatePriority | bl31/ehf.c:99-154 | ending and new fields of an activation |
| EhfCpu.ExceptionData.DeactivatePriority | bl31/ehf.c:166-218 | ending and new fields of a deactivation are those of the model |
| EhfCpu.ExceptionData.ExitedNormal | bl31/ehf.c:231-261 | ending and new fields on leaving the normal world |
| EhfCpu.ExceptionData.EnteringNormal | bl31/ehf.c:274-313 | ending and new fields on entering the normal world |
| EhfCpu.ExceptionData.AllowPreemption | bl31/ehf.c:326-359 | ending and new fields of allowing preemption |
| Handoff.Table.BuildParams | common/desc_image_load.c:130-207 | the builder returns a list exactly if the hand-off chain from the first executable image ends, and the list is that chain; it stops exactly if there is no such chain |
| Handoff.Table.LinkParams | common/desc_image_load.c:162-206 | the linking loop, with its loop detection |
| Handoff.Table.FillNode | common/desc_image_load.c:173-190 | a node is filled in and linked, or its predecessor was visited twice |
| Handoff.Table.NodeIndex | common/desc_image_load.c:53-64 | the index of the first descriptor with the id, or -1 |
| Handoff.ChainIsDistinct | common/desc_image_load.c:181-187 | a chain that ends visits no image twice |
| Handoff.ChainLength | common/desc_image_load.c:162-166 | a chain has at most as many links as there are descriptors |
| Handoff.ChainExtends | common/desc_image_load.c:192-200 | the chain is unique |
| Handoff.FindEntryPoint | common/desc_image_load.c:343-350 | the walk over a built list ends and finds the entry point of the last image with the id |
| AuthMod.ParseCounter | drivers/auth/auth_mod.c:343-376 | accepts exactly tag, fitting length, one to four bytes, sign bit clear, and computes their big-endian value |
| AuthMod.CounterBound | drivers/auth/auth_mod.c:357-364 | accepted counters are below 2^31 |
| AuthMod.RoundTrip | drivers/auth/auth_mod.c:343-376 | the parser inverts the encoding of section 8.3 of ITU-T X.690 for every counter below 2^31 |
| AuthMod.EncoderMinimal | drivers/auth/auth_mod.c:357-376 | no accepted encoding of a value is shorter than that encoding |
| AuthMod.CountersOnlyAdvance | drivers/auth/auth_mod.c:482-527 | no platform counter decreases, and one changes only after all methods passed, a signature among them, outside a trial run |
| AuthMod.AcceptedRaises | drivers/auth/auth_mod.c:386-397 | after a signed image is accepted outside a trial run, the counter of its last counter method is at its value and no other has moved |
| AuthMod.CaughtUpExactly | drivers/auth/auth_mod.c:515-527 | accepting a signed image brings all platform counters it names up to its values if and only if no counter but the last is ahead of the platform |
| AuthMod.FirstCounterStays | drivers/auth/auth_mod.c:501-527 | an accepted image with two counters, the first of which is ahead and does not move |
| AuthMod.NoRollback | drivers/auth/auth_mod.c:305-319 | over any verifications in between, an image accepted later against that counter is not older |
| AuthMod.RunsOnlyAdvance | drivers/auth/auth_mod.c:305-319 | over every sequence of verifications no counter decreases |
| AuthMod.MethodsPass | drivers/auth/auth_mod.c:478-513 | the method loop gets to its end if and only if every method passes; then it knows whether a signature was among them and whether a counter was ahead outside a trial run |
| AuthMod.AcceptedExactly | drivers/auth/auth_mod.c:452-577 | an image is accepted if and only if it is intact, has methods, every method passes, a counter that is to be upgraded can be written, and every parameter can be kept; exactly then its flag is set, and no other flag changes |
| AuthMod.CountersExactly | drivers/auth/auth_mod.c:382-527 | a platform counter is written if and only if all methods passed, a signature among them, some counter was ahead outside a trial run, and it can be written; then the one of the last counter method is at the value of the image and no other has moved |
| AuthMod.AuthModule.VerifyImg | drivers/auth/auth_mod.c:452-577 | result, counters and flags of a verification are those of the model |
| ChainOfTrust.Loader.LoadAuthRecursive | common/bl_common.c:151-187 | ends for every acyclic chain of trust; it is one pass over the images to load and comes to what the last attempt does; the authenticated images stay closed under parents and are flagged parents first; success means the image is authenticated and the image range still holds the very bytes that passed verification; an authentication error leaves the image range zeroed; counters do not go back; memory outside the image range is untouched |
| ChainOfTrust.Loader.LoadAuthImage | common/bl_common.c:209-246 | the same over all boot sources: loading succeeds exactly if the last pass does, and fails only with no boot source left; on success all ancestors up to the root of trust are authenticated and the image range holds the bytes that passed verification |
| ChainOfTrust.Loader.TryBootSources | common/bl_common.c:221-223 | one pass for every boot source used, each but the last a failure; it ends in failure only with no boot source left |
| ChainOfTrust.PassShape | common/bl_common.c:151-187 | a pass takes the unauthenticated ancestors and the image in order, each verified on what the one before left, up to the first that fails; it succeeds if and only if all of them load and are accepted |
| ChainOfTrust.Loader.LoadOne | common/bl_common.c:167-186 | an attempt at one image: verified exactly if it was loaded, successful exactly if it was loaded and accepted |
| ChainOfTrust.Loader.LoadImage | common/bl_common.c:70-144 | return code, size and memory after loading: success if and only if the image can be opened and sized and its size is zero, or fits and can be read; on success the image range is exactly the bytes of this read if and only if the read delivered the reported, non-zero size (or nothing, into a range of size zero) |
| ChainOfTrust.WholeExactly | common/bl_common.c:102-130 | the same for every answer of storage and every memory |
| ChainOfTrust.LoadedRange | common/bl_common.c:102-130 | what the verification gets after success: the bytes read, then old bytes up to the reported size; the old range after a size of zero |
| ChainOfTrust.ShortReadSucceeds | common/bl_common.c:125-130 | one byte read of two is a success with an old byte behind the new one |
| ChainOfTrust.ZeroSizeSucceeds | common/bl_common.c:102-107 | a reported size of zero is a success that leaves the old range in place |
| ChainOfTrust.Loader.VerifyLoaded | common/bl_common.c:173-186 | verification of the loaded range succeeds exactly if the authentication module accepts what it finds: flagged with these bytes, or zeroed |
| ChainOfTrust.AncestorsAuthenticated | drivers/auth/auth_mod.c:411-433 | in a set closed under parents an authenticated image has all its ancestors with it |
| ChainOfTrust.OneMoreFlag | drivers/auth/auth_mod.c:573-576 | flagging an image after its parent keeps the set closed and the order |
| AddressTranslation.TranslateIsComposition | common/fdt_wrappers.c:528-576 | for every tree, bus and address whose windows on the way up do not reach the top of the 64-bit space: translation is the composition of the first-matching maps of the buses up to the root, and is the illegal address if and only if some bus has no map or no window |
| AddressTranslation.SearchIsFirstInside | common/fdt_wrappers.c:425-478 | for all windows and addresses: the search uses the first window that holds the address among those whose end does not wrap, and keeps the offset modulo 2^64 |
| AddressTranslation.SearchAgrees | common/fdt_wrappers.c:425-478 | the search finds the first window that holds the address, if its end does not wrap and the result lies below the illegal address, and nothing if there is none |
| AddressTranslation.WindowsFit | common/fdt_wrappers.c:410-417 | windows on the way up that end below the top of the 64-bit space on both sides are enough for all addresses |
| AddressTranslation.BusStep | common/fdt_wrappers.c:528-576 | one level of the recursion is the map of the bus |
| AddressTranslation.SearchEntries | common/fdt_wrappers.c:463-477 | stepping through the cells finds the first entry that hits, for any number of size cells; which cells the entries are is `WindowsLayout` |
| AddressTranslation.WindowsLayout | common/fdt_wrappers.c:395-475 | for numbers of one or two cells: a property of n-cell entries has as many as fit, and entry k holds, from cell k*n on, the value of the local address, of the address on the parent bus and of the size |
| AddressTranslation.BusLayout | common/fdt_wrappers.c:443-475 | the same for the entries of a bus: local addresses have the cells of the bus, parent addresses those of its parent |
| AddressTranslation.HitExactly | common/fdt_wrappers.c:410-417 | the wrapping range check is membership in the window for all addresses if and only if the end of the window does not wrap |
| AddressTranslation.ReadCellsExactly | common/fdt_wrappers.c:267-276 | reading is exact for all contents if and only if the number has one or two cells; without cells the one that follows is read |
| AddressTranslation.OffsetsKept | common/fdt_wrappers.c:416-417 | translations of addresses that take the same windows keep their distance |
| RuntimeSvc.Dispatcher.Initialise | common/runtime_svc.c:90-154 | succeeds exactly if all descriptors are valid; then every table slot holds the last serving descriptor |
| RuntimeSvc.Dispatcher.Enter | common/runtime_svc.c:139-152 | exactly the slots of the service's range are given to it |
| RuntimeSvc.Dispatcher.Lookup | common/runtime_svc.c:32-56 | for every identifier the last descriptor of its call type whose range holds its entity and whose init did not fail, otherwise the unknown-call code |
| RuntimeSvc.ConventionIgnored | include/common/runtime_svc.h:108-123 | the 32/64-bit flag of the identifier has no influence |
| RuntimeSvc.FieldsOfIdentifier | include/lib/smccc.h:26-61 | call type and owning entity are read back from every identifier made of type, convention, entity and function |
| RuntimeSvc.IdentifierOfFields | include/lib/smccc.h:26-61 | every 32-bit identifier is made of them |
| RuntimeSvc.SlotGrows | common/runtime_svc.c:108-153 | how one more descriptor changes the answer of the linear search |
| ScmiPaging.RatesRebuilt | drivers/scmi-msg/clock.c:300-324 | a client walking CLOCK_DESCRIBE_RATES by the packed counts rebuilds the rate list if and only if its length, below 2^32, does not exceed a multiple of 65536 by a multiple of ten |
| ScmiPaging.ShortListsRebuilt | drivers/scmi-msg/clock.c:300-324 | in particular for all lists of fewer than 65546 rates |
| ScmiPaging.WordsRoundTrip | drivers/scmi-msg/clock.c:264-276 | low and high words give back every 64-bit rate |
| ScmiPaging.WriteRates | drivers/scmi-msg/clock.c:264-276 | the loop writes the words of the rates in order and nothing else |
| ScmiPaging.WireRoundTrip | drivers/scmi-msg/clock.h:117-132 | count, format and remaining are read back from the packed word |
| ScmiPaging.PageCounts | drivers/scmi-msg/clock.c:304-318 | an answer counts its rates and tells the rest modulo 65536 |
| ScmiPaging.HandleDescribeRates | drivers/scmi-msg/clock.c:278-353 | the words and the size of the answer for every request, every kind of clock and every answer of the platform, also beyond the end of the list |
| ScmiPaging.ClientLearns | drivers/scmi-msg/clock.c:253-353 | what a client reads back from the words of every answer: the rates of a list with their number and how many are left modulo 65536, the triplet of lowest, highest and step in the range format, or why there is no answer |
| ScmiPaging.RatesInside | drivers/scmi-msg/clock.c:299-339 | answers fit the output buffer, for all requests and all answers of the platform, if and only if 88 bytes do |
| ScmiPaging.HonestAnswer | drivers/scmi-msg/clock.c:299-324 | a platform that fills in the rates it is asked for, within the list, gets a page of the list |
| ScmiPaging.CountProtocols | drivers/scmi-msg/base.c:121-132 | the number of protocols before the terminator, and none without a list |
| ScmiPaging.HandleListProtocols | drivers/scmi-msg/base.c:134-165 | memory and size after the answer, for every request, list and buffer size: status, count, protocols, and nothing else changed |
| ScmiPaging.WordValue | drivers/scmi-msg/base.c:153-160 | the four bytes of a word, least significant first, are its value |
| ScmiPaging.AnswerInside | drivers/scmi-msg/base.c:153-164 | answers stay inside the output buffer for all lists and requests if and only if the header does |
| ScmiPaging.ReportInside | drivers/scmi-msg/base.c:162-164 | the reported size stays inside the output buffer for all lists and requests if and only if the header does and the buffer is a whole number of words |
| ScmiPaging.ProtocolsRebuilt | drivers/scmi-msg/base.c:153-164 | a client paging by skip rebuilds the protocol list if and only if answers have room for a protocol or there is none |
| ScmiChannel.AtMostOneInside | drivers/scmi-msg/smt.c:75-167 | under every interleaving at most one core is between a successful channel_set_busy and the release of a channel, and no payload copied in exceeds 92 bytes |
| ScmiChannel.StepKeeps | drivers/scmi-msg/smt.c:75-177 | every step of every core keeps the exclusion invariant |
| ScmiChannel.AcceptedLengths | drivers/scmi-msg/smt.c:132-138 | exactly the length fields from 4 to 96 pass the size check; smaller ones wrap to a size that is refused |
| ScmiChannel.GivingUpAbandons | drivers/scmi-msg/smt.c:132-144 | checking a message that is too long, or has a status of error or free, after entering leaves the channel busy with nobody inside |
| ScmiChannel.AbandonsExactly | drivers/scmi-msg/smt.c:75-167 | a step abandons a channel if and only if it is such a check |
| ScmiChannel.AbandonedExactly | drivers/scmi-msg/smt.c:75-167 | throughout every run a channel is abandoned if and only if some core has given up a message on it |
| ScmiChannel.AbandoningRun | drivers/scmi-msg/smt.c:125-144 | for every channel and every message that is not in order, a run that abandons the channel over it |
| ScmiChannel.AbandonedForever | drivers/scmi-msg/smt.c:127-177 | from then on no core enters it again in any continuation |
| ScmiChannel.EntersExactly | drivers/scmi-msg/smt.c:75-130 | a core that finds the lock free is refused on a busy channel, without effect, and enters any other |
| ScmiChannel.ServedExactly | drivers/scmi-msg/smt.c:132-167 | inside, a message with a length field from 4 to 96 and neither error nor free in its status is copied without its header and processed, and the channel is free again; any other is refused and the channel stays busy |
| ScmiChannel.NobodyStuck | drivers/scmi-msg/smt.c:75-177 | at every point of every run each core can take its next step, or waits for the lock and the core that has it can |
| UsbEp0.InTransfer | drivers/usb/usb_device.c:421-464 | for every length and packet size: the packets of the length, one zero-length packet exactly if the length is a multiple of the packet size and less than requested, and the status stage after exactly as many events as packets |
| UsbEp0.ControlRead | drivers/usb/usb_device.c:339-464 | the same from the setup packet on, with the requested length taken from its bytes |
| UsbEp0.PacketsAreSplit | drivers/usb/usb_device.c:427-456 | from any point of an IN transfer the packets sent are the cut of what remains, with at most one zero-length packet behind |
| UsbEp0.SplitFacts | drivers/usb/usb_device.c:428-432 | packets are full but the last and add up to the length |
| UsbEp0.SplitCount | drivers/usb/usb_device.c:428-432 | their number is the length divided by the packet size, rounded up |
| UsbEp0.EventsAreCounted | drivers/usb/usb_device.c:421-464 | one event per packet, the last one leads to the status stage |
| UsbEp0.OutTransfer | drivers/usb/usb_device.c:382-404 | an OUT transfer reaches the status stage after one event per packet |
| UsbEp0.ExpectedAreSplit | drivers/usb/usb_device.c:382-404 | the packets the device gets ready for in an OUT transfer are the cut of its length |
| UsbEp0.UsbDevice.OnDataIn | drivers/usb/usb_device.c:421-464 | new fields and what is started by a completed IN packet |
| UsbEp0.UsbDevice.OnDataOut | drivers/usb/usb_device.c:382-404 | new fields and what is started by a completed OUT packet |
| UsbEp0.UsbDevice.Transmit | drivers/usb/usb_device.c:728-743 | state and lengths of a transfer to the host |
| UsbEp0.UsbDevice.Receive | drivers/usb/usb_device.c:703-718 | state and lengths of a transfer from the host |
| UfsPrdt.FillPrdt | drivers/ufs/ufs.c:491-516 | the entries tile the buffer in order without gap or overlap, each of 1 to 256 KiB with fields that fit, as many as the length needs; the panic exactly if they do not fit the descriptor area |
| UfsPrdt.EntryBound | drivers/ufs/ufs.c:494-494 | at most 1024 entries under the assertion on the block count, for lengths below 16 TiB, where the count is not cut to 32 bits |
| UfsPrdt.LayoutInOrder | drivers/ufs/ufs.c:397-415 | header, command, response and table follow each other aligned and without overlap, at the offsets recorded in words |
| DelayTimer.Udelay | drivers/delay_timer/delay_timer.c:23-58 | for every start value and any number of 32-bit wraps the call returns only after the ticks to wait for have passed, at the first poll that shows it |
| DelayTimer.EndsInTime | drivers/delay_timer/delay_timer.c:41-57 | with at most 1000 ticks between polls the loop ends at the first poll after the time is up |
| DelayTimer.NeverShorter | drivers/delay_timer/delay_timer.c:37-40 | in microseconds the delay is never shorter than asked, even without the first tick |
| DelayTimer.NotMuchLonger | drivers/delay_timer/delay_timer.c:37-40 | nor does it ask for more than two ticks beyond: two ticks less would be shorter than asked |
| DelayTimer.NoOverflow | drivers/delay_timer/delay_timer.c:33-40 | the 64-bit computation cannot overflow and the assertion on the argument always holds |
| DelayTimer.DeltaIsElapsed | drivers/delay_timer/generic_delay_timer.c:21-30 | the difference of two complemented readings is the number of ticks in between modulo 2^32 |
| DelayTimer.GenericInit | drivers/delay_timer/generic_delay_timer.c:44-61 | the loop ends, with the ratio of multiplier and divider still that of one million to the frequency and not both divisible by ten |

## Assumptions

- Firmware update: images lie in memory at their largest size; only the service writes the modelled memory; the
  bytes at a source address are an input of the call; callers fit where a member says so: the secure
  world calls exactly while a secure image is EXECUTED, since only execution, resumption and completion switch worlds
  (`bl1/aarch64/bl1_exceptions.S:273-274`); the boot-time non-secure image is EXECUTED without being listed.
- Block I/O: the low-level driver transfers at most what is asked for and reports how much; block numbers fit an
  `int`.
- Exception priorities: priorities are secure and equal to the priority of their own index; the running priority
  changes at EL3 only; the interrupt controller ignores non-secure writes while the mask is a secure one.
- Hand-off list: the static nodes and the head are null before the first call.
- Chain of trust: parents form no cycle, and the platform has finitely many boot sources to try.
- Address translation: the root has no `ranges`; addresses of a bus with entries have at least one cell, there and on its
  parent, which the flattened-tree library sees to; a cell follows each property in the blob.
- Delay: the counter does not run backwards.

## Left out

- FwuService.Service.ImageExecute: saving and restoring processor contexts and the entry point registers, which have no part in the image state.
- ChainOfTrust.Loader.LoadAuthImage: dynamic disabling of authentication, a development switch that skips the chain altogether.
- ScmiPaging.RatesRebuilt: lists of 2^32 and more rates, which the 32-bit index of a request cannot name.
- UsbEp0.InTransfer: a premature end of the transfer by the host, and the callbacks of the device class.
- FwuService.Service.ImageReset: the flag of the authentication module that a reset clears; no other call of the service reads it.
- The end of the whole update process, which leaves the service for the platform.
- The bytes carried in USB packets: the buffer belongs to the controller driver.
- BlockIo.BlockFile.Open: the pool of device states and its allocation, which would only add easy members.
- RuntimeSvc.Dispatcher.Lookup: the call of the handler itself; its effects belong to the services.
- Cryptography, certificate parsing and the flattened-tree library: their results are inputs.
- Which saved parent key or hash an image is checked against: the buffers belong to platform tables.
- The list of loadable images and the configuration addresses passed along the hand-off list: linear code over the table.
- Endpoints other than 0, standard USB requests, UFS commands other than their scatter list: register sequences and dispatch.
- Cache maintenance, barriers, logging, measured boot and instrumentation.
