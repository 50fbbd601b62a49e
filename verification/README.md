# VirtPilot's decisions, modelled and proved

VirtPilot's backend manages virtual machines on one host by deciding things in small algorithms and then
calling `virsh`, `iptables`, `nft`, `ip` and the file system. This project models those algorithms in Dafny
and proves what the rest of the product relies on: properties of every run of a protocol, agreement of two
implementations of one idea, plans that reach what they aim at, round trips. The tools are replaced with
abstract state: a rule list, a device record, a list of backups, a table of marks.

`dafny verify dfyconfig.toml` checks all of it.

| Files | What they model |
|---|---|
| `BackupChains`, `BackupDeletion`, `BackupRetention`, `BackupRuns` | a VM's backups: the two chain walks, deletion with and without cascade, retention's peel loop, and runs of all operations |
| `Firewall`, `BridgeFilter`, `FirewallLayers`, `ConnMarks`, `MarkRuns` | a VM's rules, their nft and iptables compilations with an evaluator for each, and the connection marks, in one chain and over runs |
| `ForwardList`, `ForwardRuns`, `ForwardKeeping`, `ForwardTable` | the FORWARD list that firewalls and port forwards both insert into: as functions, over runs, what each operation leaves alone, and edited in place |
| `NetworkHold` | the handshake between VMs on their way to a network and a delete of it |
| `Cidr`, `Js32` | address arithmetic under JavaScript's 32-bit operators, and those operators |
| `Vxlan`, `Uplink` | the two reconcilers: plans, and what is true after any part of one and over runs of passes |
| `Console`, `BannerFilter` | the shared serial console: backlog, sessions and viewers, and the banner filter |
| `Passthrough` | the passthrough inventory and the check before a start |
| `Totp`, `RateLimit` | the base32 codec (RFC 4648, section 6, without padding) and the sliding-window limiter |
| `Wrappers` | `Option` and `Result` |

Code that updates variables or fields is a method or a class here, proved equal to a function or against a
predicate; the lemmas are about those. `hide` only keeps a proof from unfolding what it does not need.

## Where the code and what is said of it differ

- **Rules for ICMP type 255.** The bridge matches type 255; iptables' own ICMP match takes 255 for any type
  and ignores the code. So the two layers disagree on such a rule, which validation lets through. Which
  rules compile alike is `FirewallLayers.RuleCompilesAlikeIff`. The layers disagree on a packet exactly when the
  first rule that applies with 255 read as any type is one for 255 that does not apply as written, and what comes
  after it decides otherwise: `FirewallLayers.LayersAgreeIff`. `FirewallLayers.AnyIcmpDivides` gives such a
  configuration and packet for every such rule.
- **A banner longer than 513 characters** is dropped when it arrives in one chunk and shown when it arrives in
  pieces, so cuts matter for exactly those: `BannerFilter.CutsMatterOnlyForLongBanners`, with a name of 600 letters in
  `BannerFilter.LongNameIsShown`. The name and the escape character's text would need more than 471 characters
  together (`BannerFilter.CutsMatterOnlyForLongNames`), and VirtPilot's own names have at most 63
  (packages/backend/src/lib/validate.ts:5).
- **"Never up with stale settings"** is what the comment above `planTunnel` says of a plan stopped half way. A device
  that is up, stays up and has two things or more to change is: `Vxlan.UpStaleOnlyIfAlreadyUp`, and
  `Vxlan.UpBetweenPeers` for one remote host replaced by another.
- **A copy or a restore** that waited for its source's network to be deleted goes ahead on the bridge that has
  gone, with a warning. So the hold keeps VMs that are created, or have a NIC attached, on networks that are
  there, and copies only from losing a network they already held: `NetworkHold.CopyOnDeletedNetwork`, and
  `NetworkHold.CopyThatWaitedForADelete` for a run.
- **Functions with no isolation group** are each offered alone, and the check before a start takes all of them for
  one group: `Passthrough.UngroupedCanStart`, and `Passthrough.UngroupedIsBlocked` for two of them.
- **A firewall pass raises by the list it read when it began.** An address whose jumps were out of place then, and
  which the pass takes the firewall off, has its jumps back when the pass ends: `ForwardRuns.DroppedComesBackIff`, and
  `ForwardRuns.DroppedCameBack` for three steps after which it has.
- **FORWARD's jumps in another form** than VirtPilot's own are counted as out of place but not moved, so raising leaves
  something out of place exactly when one of those was: `ForwardList.RaisePutsInPlace`, and
  `ForwardList.OddJumpStaysLow` for a list of two rules.

## Assumptions

- Backups: one operation on a VM at a time, `createdAt` strictly increasing and IDs never used again; the clock
  stands still during a retention pass. An operation may be cut short between two removals.
- Marks: a VM keeps its number, no two have the same, and a connection's entry begins with mark 0 and never comes
  back under its own name. Rules, taps and host addresses may change between frames; a dropped first frame's entry may or may not be kept.
- FORWARD: operations follow one another and their calls to iptables work; other programs leave VirtPilot's jumps and
  forwards' ACCEPTs where they are among themselves; forwards' IDs are never used again.
- Network holds: a step is what runs between two awaits, in any interleaving of any number of creations, attachments and
  copies with the deletes, which are one at a time. A network's ID is never used again.
- Uplinks: VirtPilot's own `ip` steps succeed, nothing else puts the NIC on the bridge, and the clock never goes back.
- The limiter: a clock that never goes back.
- Console: a session's epoch is not that of any earlier one.
- Strings are sequences of JavaScript's 16-bit units; `toUpperCase` is modelled for ASCII letters.

## Model

| member | source | states |
|---|---|---|
| BackupChains.WalkChain | packages/backend/src/services/backupService.ts:572-586 | the walk returns broken, the bytes and the backups passed, on any list, missing parents and cycles included |
| BackupChains.BrokenIsNotRestorable | packages/backend/src/services/backupService.ts:569-586 | `chainBroken` is said of exactly the backups with no path of present parents down to a full one |
| BackupChains.TotalIsSizes | packages/backend/src/services/backupService.ts:579 | `chainSizeBytes` is the sum of the sizes of the backups passed, each counted once |
| BackupChains.VerifyChain | packages/backend/src/services/backupService.ts:1547-1565 | fails exactly for an unknown backup; otherwise the chain root first, and whether its root is an incremental |
| BackupChains.WalksAgree | packages/backend/src/services/backupService.ts:1553-1565 | where incrementals are what names a parent, both walks pass the same backups in the same order and `rootMissing` is `chainBroken` |
| BackupDeletion.CollectDescendants | packages/backend/src/services/backupService.ts:1295-1315 | on any parent graph, ends with every backup reachable through child links, once each, without the root |
| BackupDeletion.Store.DeleteBackup | packages/backend/src/services/backupService.ts:1264-1293 | refuses, taking nothing, exactly when something is built on it and cascade is off; else exactly it and all built on it go, never one with something left on it |
| BackupDeletion.CascadeRemoves | packages/backend/src/services/backupService.ts:1286-1292 | a cascade leaves exactly what is neither the root nor built on it |
| BackupDeletion.CascadeTakesLeaves | packages/backend/src/services/backupService.ts:1286-1292 | newest first means each one that goes has nothing left layered on it |
| BackupDeletion.LeavesKeepChains | packages/backend/src/services/backupService.ts:1286-1292 | after each removal of something nothing is layered on, every survivor's walk is what it was |
| BackupRetention.CountAll | packages/backend/src/services/backupService.ts:1810-1813 | `childCount` is the number of backups that name each parent |
| BackupRetention.ApplyRetention | packages/backend/src/services/backupService.ts:1779-1839 | refuses, changing nothing, on an unreadable manifest; else ends, having taken only expired backups with nothing left on them until none remains; before each removal and at the end every count is of the surviving children |
| BackupRetention.LeavesLargestSupported | packages/backend/src/services/backupService.ts:1821-1838 | on any graph, what is left is the largest set in which every expired backup has a child |
| BackupRetention.RetentionIsExact | packages/backend/src/services/backupService.ts:1821-1838 | with nothing built on itself a pass removes a backup if and only if it and everything built on it have expired |
| BackupRetention.RetentionByAge | packages/backend/src/services/backupService.ts:1815-1819 | of a pass's result: own days and global days of 0 keep a backup for ever, own days keep it that long whatever the global ones, global days keep one with none of its own, and one past its days with nothing built on it goes |
| BackupRetention.RetentionKeepsChains | packages/backend/src/services/backupService.ts:1821-1838 | after each single removal every survivor has the chain status it had before |
| BackupRuns.CountChainLength | packages/backend/src/services/backupService.ts:808-816 | counts the incrementals the list begins with |
| BackupRuns.ClampFullEvery | packages/backend/src/services/backupService.ts:1159-1162 | a limit is the whole part of what was asked, but never under 1 or over 60; and 7 if that is no number |
| BackupRuns.CreateBackup | packages/backend/src/services/backupService.ts:925-1065 | one run, decided and recorded as `TakenIff` says, with what was there left as it was |
| BackupRuns.TakenIff | packages/backend/src/services/backupService.ts:702-743 | nothing is taken exactly when the copy fails or the parent lacks a disk; else an incremental on the newest backup exactly when one was asked for, the VM runs, the host can, that backup can be restored and has a checkpoint that is still there, fewer incrementals than the limit stand there, and the copy did not degrade |
| BackupRuns.TakenIsOnNewest | packages/backend/src/services/backupService.ts:702-743 | an incremental is only ever put on the newest backup, and only with room on its chain |
| BackupRuns.OpKeepsShape | packages/backend/src/services/backupService.ts:931-1008 | create, delete, cascade and retention, cut short anywhere, each keep the shape of the list |
| BackupRuns.ReachableChains | packages/backend/src/services/backupService.ts:931-946 | in every reachable list an incremental is on its immediate predecessor, nothing is broken, and no chain has more than 60 incrementals |
| BackupRuns.ReachableChainLength | packages/backend/src/services/backupService.ts:808-816 | in every reachable list the counted chain length is the newest backup's true depth |
| BackupRuns.ReachableRetention | packages/backend/src/services/backupService.ts:1821-1838 | in every reachable list nothing is built on itself, so a pass removes exactly what has expired with everything built on it |
| BridgeFilter.ChainsNeverAccept | packages/backend/src/lib/bridgeFilter.ts:47-50 | no rule of any VM's chains ever ends the hook in another VM's place |
| BridgeFilter.BothHaveTheirSay | packages/backend/src/lib/bridgeFilter.ts:45-50 | a frame between two filtered VMs passes if and only if the sender's chain and then the receiver's let it |
| BridgeFilter.PassOrGoOn | packages/backend/src/lib/bridgeFilter.ts:69-80 | rules that only return end a chain at one that matches, the mark untouched, or leave it to what follows |
| BridgeFilter.AlwaysIs | packages/backend/src/lib/bridgeFilter.ts:62-80 | what passes with no rule asked: frames that are not IP, small DHCP and DHCPv6 messages within the rate, and the ICMPv6 types that find routers, neighbours and groups, each in its direction, at any mark |
| BridgeFilter.PreamblesAre | packages/backend/src/lib/bridgeFilter.ts:131-149 | what comes before a VM's rules passes exactly the frames that need none, and those of its own connections: fragments after the first by either half of the mark, replies where they are allowed |
| BridgeFilter.RuleMatchTakes | packages/backend/src/lib/bridgeFilter.ts:88-109 | what a compiled rule takes of any frame, IPv6, tagged and fragments included |
| FirewallLayers.NftMatchIsApplies | packages/backend/src/lib/bridgeFilter.ts:82-109 | the bridge's compilation of a rule matches exactly the plain packets the rule applies to |
| FirewallLayers.IptMatchIsLoose | packages/backend/src/services/firewallService.ts:791-808 | iptables' compilation matches exactly those of the rule with 255 read as any ICMP type |
| FirewallLayers.BridgeDecides | packages/backend/src/lib/bridgeFilter.ts:128-151 | the chain drops an ordinary packet if and only if it is not one that needs no rule and the first rule that applies, or the default, drops it, at any mark |
| FirewallLayers.IptablesDecides | packages/backend/src/services/firewallService.ts:777-821 | a reply is accepted where that is allowed and conntrack is there; any other packet is dropped exactly when the rules as iptables reads them say so, and goes on to the rules below exactly when none applies and the default allows |
| FirewallLayers.RefusedIff | packages/backend/src/services/firewallService.ts:519-538 | rules cannot be compiled exactly when one of them lists more than 15 ports, a range counting as two |
| FirewallLayers.MisledDecides | packages/backend/src/services/firewallService.ts:791-808 | reading 255 as any type changes a decision exactly where such a rule misleads |
| FirewallLayers.LayersAgree | packages/backend/src/services/firewallService.ts:777-821 | with no rule for type 255, both layers drop an ordinary packet that needs a rule if and only if the policy does |
| FirewallLayers.LayersAgreeIff | packages/backend/src/services/firewallService.ts:791-808 | any configuration that compiles: the layers disagree on a packet exactly when the first rule that applies with 255 as any type is one for 255 that does not apply as written, and what comes after it decides otherwise |
| FirewallLayers.RuleCompilesAlikeIff | packages/backend/src/lib/bridgeFilter.ts:88-109 | a rule's two compilations match the same plain packets if and only if it is not for type 255 |
| FirewallLayers.AnyIcmpDivides | packages/backend/src/lib/validate.ts:109 | every valid rule for type 255 has a configuration and a packet that one layer drops and the other does not |
| FirewallLayers.CrossesIffBothAllow | packages/backend/src/lib/bridgeFilter.ts:47-50 | an ordinary packet crosses between two filtered VMs if and only if one's rules allow it out and the other's allow it in |
| ConnMarks.FreeBridgeMark | packages/backend/src/services/firewallService.ts:566-571 | the lowest free number from 1 to 65535, none only when all are taken |
| ConnMarks.SetHalf | packages/backend/src/lib/bridgeFilter.ts:131-145 | writing one half of a mark sets it to the VM's number and leaves the other half as it was |
| ConnMarks.InChainMarks | packages/backend/src/lib/bridgeFilter.ts:135-142 | any frame in is dropped if and only if it needs a rule, is no fragment or reply of a connection that is this VM's by the halves of its mark, and the rules refuse it; the bottom half becomes this VM's exactly when the rules let it in, and the top half stays |
| ConnMarks.OutChainMarks | packages/backend/src/lib/bridgeFilter.ts:143-151 | the same of any frame out, where a new connection counts as started by this VM; the top half becomes this VM's exactly when the frame is new and needs a rule, and the bottom half stays |
| Firewall.LetsIsDecision | packages/backend/src/lib/bridgeFilter.ts:140-141 | for plain packets what the rules let through at the tap is the policy's decision |
| MarkRuns.HookRunsChains | packages/backend/src/lib/bridgeFilter.ts:43-58 | each hook asks the sender's chain, then the receiver's, except for the host's own addresses |
| MarkRuns.RunsAreTruthful | packages/backend/src/lib/bridgeFilter.ts:112-127 | over every run of frames every connection's two halves are true |
| MarkRuns.MarksTellTheTruth | packages/backend/src/lib/bridgeFilter.ts:112-127 | top half m only if VM m itself sent a new frame through its chain; bottom half m only if a frame got as far as m's rules and those let it in |
| MarkRuns.MarksAreSomeones | packages/backend/src/lib/bridgeFilter.ts:112-127 | a half that is set is the mark of some VM |
| MarkRuns.PassedOutIsOurs | packages/backend/src/lib/bridgeFilter.ts:143-151 | over every run, a frame out that the VM's chain passes needs no rule, is let out by its rules, or is a fragment or reply on a connection this VM really started or let in |
| MarkRuns.PassedInIsOurs | packages/backend/src/lib/bridgeFilter.ts:135-142 | and so it is of a frame in |
| ForwardList.OutOfPlaceIsLow | packages/backend/src/services/firewallService.ts:447-470 | an address is reported exactly when a jump of the VM for it is below a libvirt rule or a forward's ACCEPT for it |
| ForwardList.RaisePutsInPlace | packages/backend/src/services/firewallService.ts:447-477 | raising puts one pair for each reported address on top, keeps every other rule in order, disturbs no other VM, and leaves out of place exactly what was on jumps of another form |
| ForwardList.OddJumpStaysLow | packages/backend/src/services/firewallService.ts:447-477 | a list of two rules that raising does not put in place |
| ForwardRuns.AboveIs | packages/backend/src/services/firewallService.ts:354-367 | being above means an occurrence with no ACCEPT of the forward before it |
| ForwardRuns.ForwardsStayUnderTheFirewall | packages/backend/src/services/firewallService.ts:376-383 | after any sequence of operations a VM with chains has both jumps for each of its forwards, above that forward's ACCEPT |
| ForwardRuns.ForwardsStand | packages/backend/src/services/portForwardService.ts:367-419 | each forward's ACCEPT is there from its creation to its deletion |
| ForwardRuns.SyncCoversEveryAddress | packages/backend/src/services/firewallSync.ts:228-269 | after a pass rules in force are on every address the VM has and every one its forwards name, both ways, whatever was lost before |
| ForwardRuns.DroppedComesBackIff | packages/backend/src/services/firewallSync.ts:255-267 | after any pass, rebuilding or not, an address with evidence that it isn't the VM's has jumps exactly when it was out of place in the list read at its start |
| ForwardRuns.DroppedCameBack | packages/backend/src/services/firewallSync.ts:255-267 | three steps from an empty host after which an address taken off has its jumps |
| ForwardKeeping.OneAcceptEach | packages/backend/src/services/portForwardService.ts:367-419 | over every run from a list with no forwards, an ACCEPT is in the list exactly when it is that of a forward on record, and is there once |
| ForwardKeeping.DeletionTakesItsAccept | packages/backend/src/services/portForwardService.ts:409-419 | over every such run, deleting a forward takes its ACCEPT and its record and leaves every other rule and record where it was |
| ForwardKeeping.OthersStand | packages/backend/src/services/firewallService.ts:762-774 | an Apply, a pass or a removal leaves every rule but jumps to that VM's chains in order, and other VMs' chains; a pass with nothing to have in force changes nothing |
| ForwardKeeping.AddingAddsOnly | packages/backend/src/services/portForwardService.ts:367-388 | besides jumps to the VM's chains, adding a forward adds only its ACCEPT, on top, and its record |
| ForwardKeeping.NoFirewallLeft | packages/backend/src/services/firewallService.ts:826-832 | taking a firewall away leaves no jump to the VM's chains, in any form |
| ForwardKeeping.NoJumpWithoutChains | packages/backend/src/services/firewallService.ts:354-367 | over every run a jump in VirtPilot's form is one to chains that are there |
| ForwardKeeping.ApplyLeaves | packages/backend/src/services/firewallService.ts:544-560 | an Apply puts the rules on exactly the addresses given, those its forwards name and those they were on |
| ForwardKeeping.SyncLeaves | packages/backend/src/services/firewallSync.ts:228-269 | of an address with no evidence against it: after a pass the rules are on it, both ways, exactly when they were found there, or it is wanted, named by a forward or raised; and else no jump names it |
| ForwardTable.JumpsOutOfPlace | packages/backend/src/services/firewallService.ts:447-470 | the two scans return the reported addresses, once each and in order |
| ForwardTable.Host.PutJumps | packages/backend/src/services/firewallService.ts:347-353 | every copy of the pair goes and one pair is put on top, the rest in order |
| ForwardTable.Host.DropJumps | packages/backend/src/services/firewallService.ts:339-343 | every copy of the pair goes |
| ForwardTable.Host.JumpSwap | packages/backend/src/services/firewallService.ts:762-774 | all jumps to the VM's chains go, whatever their form, and a pair for each address comes on top |
| ForwardTable.Host.RepairJumps | packages/backend/src/services/firewallService.ts:502-506 | an address with one of a pair gets the other |
| ForwardTable.Host.RaiseFirewallAddresses | packages/backend/src/services/firewallService.ts:473-477 | puts each address's pair on top in turn |
| ForwardTable.Host.ApplyRules | packages/backend/src/services/firewallService.ts:544-560 | an Apply as a step of the runs above |
| ForwardTable.Host.AddForward | packages/backend/src/services/portForwardService.ts:367-388 | adding a forward, and putting the jumps back above it, as a step |
| ForwardTable.Host.DeleteForward | packages/backend/src/services/portForwardService.ts:409-419 | deleting a forward as a step, which `DeletionTakesItsAccept` is about |
| ForwardTable.Host.SyncOne | packages/backend/src/services/firewallSync.ts:228-269 | one VM's part of a pass as a step |
| NetworkHold.RunInv | packages/backend/src/services/networkService.ts:131-161 | what every interleaving of holds, creations and deletes keeps |
| NetworkHold.NoDeletePastAHold | packages/backend/src/services/networkService.ts:147-161 | no reachable state has a delete past its check while anyone holds the network's ID, bridge or libvirt name |
| NetworkHold.NoNicOnDeletedNetwork | packages/backend/src/services/networkService.ts:698-729 | no VM that was created, or had the NIC attached, is on a network of VirtPilot's whose delete has committed |
| NetworkHold.CopyOnDeletedNetwork | packages/backend/src/services/vmDeriveService.ts:271-282 | a copy's NIC is made whatever has gone, and a network of VirtPilot's gone from its bridge had gone before the copy took its hold |
| NetworkHold.CopyThatWaitedForADelete | packages/backend/src/services/vmDeriveService.ts:271-282 | a run in which that happens |
| NetworkHold.CreationComesTo | packages/backend/src/routes/vms.ts:417-447 | left to itself a creation waits while one of its networks is being deleted, ends with nothing when one is not recorded, and else gets exactly one NIC on each of their bridges |
| NetworkHold.CopyComesTo | packages/backend/src/services/vmDeriveService.ts:271-282 | a copy waits likewise, and then gets a NIC on every bridge it names |
| NetworkHold.DeleteComesTo | packages/backend/src/services/networkService.ts:698-729 | left to itself a delete takes the network away, unless it is VirtPilot's own and somebody holds one of its names or a NIC is on its bridge; then nothing changes |
| NetworkHold.ReleaseLetsGo | packages/backend/src/services/networkService.ts:147-156 | who has let go stops no delete |
| Cidr.IpToNumIsValue | packages/backend/src/services/networkService.ts:196-199 | the shifts and ors give the address's value in base 256 |
| Cidr.NumToIpInverse | packages/backend/src/services/networkService.ts:201-203 | the octets of a number write it back, modulo 2^32 |
| Cidr.ParseCidrIsBlock | packages/backend/src/services/networkService.ts:255-268 | network and broadcast are the ends of the aligned block that holds the base, for every prefix 0 to 32 |
| Cidr.IpInCidrIsMembership | packages/backend/src/services/networkService.ts:224-229 | the interval test is membership of the block |
| Cidr.TwoMembershipTestsAgree | packages/backend/src/middleware/auth.ts:19-34 | the mask test of the allow-list says yes exactly when both texts and the prefix can be read and the interval test does, for every text |
| Cidr.OverlapIsSharing | packages/backend/src/services/networkService.ts:214-222 | two blocks overlap if and only if they share an address, and then one contains the other |
| Cidr.EnumerateUsableIps | packages/backend/src/services/networkService.ts:270-281 | exactly the addresses strictly inside the block, in ascending order |
| Vxlan.PlanTunnel | packages/backend/src/lib/vxlan.ts:337-359 | a conflict exactly for a device of another ID or port, else the steps in order |
| Vxlan.PlanReachesWanted | packages/backend/src/lib/vxlan.ts:328-359 | from any state with no conflict the whole plan reaches the wanted state, up exactly when that is allowed and there are a remote host and a bridge |
| Vxlan.EveryStepApplies | packages/backend/src/lib/vxlan.ts:337-359 | and each step of it is one the kernel does when its turn comes |
| Vxlan.StepsInOrder | packages/backend/src/lib/vxlan.ts:328-358 | a plan closes first and opens last, and in between makes the device, sets its MTU, its bridge, then deletes and then adds remote hosts |
| Vxlan.NoStepsWhenAsWanted | packages/backend/src/lib/vxlan.ts:337-359 | there is nothing to do exactly when everything is as wanted |
| Vxlan.PlanningAgainGivesNothing | packages/backend/src/lib/vxlan.ts:337-359 | planning after the plan gives no steps |
| Vxlan.UpOnPrefix | packages/backend/src/lib/vxlan.ts:328-359 | after any steps but none the device is up only if it should be, and comes up with the last step or not at all |
| Vxlan.ComesUpSettled | packages/backend/src/lib/vxlan.ts:354-357 | when the device comes up everything else is already as wanted |
| Vxlan.UpStaleOnlyIfAlreadyUp | packages/backend/src/lib/vxlan.ts:328-331 | it is ever up with a stale setting part of the way exactly when it was up, stays up, and its MTU, bridge and remote hosts need two changes or more |
| Vxlan.StepsAreChanges | packages/backend/src/lib/vxlan.ts:349-357 | a device that is up and stays up gets one step for each setting and remote host that is not as wanted |
| Vxlan.UpBetweenPeers | packages/backend/src/lib/vxlan.ts:354-355 | one remote host replaced by another leaves the device up with neither after the first step |
| Uplink.PlanningAgainGivesNothing | packages/backend/src/lib/managedBridge.ts:67-78 | the plan's steps done, planning again gives none |
| Uplink.StepsAre | packages/backend/src/lib/managedBridge.ts:45-78 | by the NIC itself: a pass takes it exactly when it is spare and not being configured for less than 150 s, gives it back exactly when it is on the bridge with a readable address, and brings it up when it is down and on the bridge or taken |
| Uplink.RemembersAre | packages/backend/src/services/bridgeService.ts:92-104 | by the NIC itself: when a pass leaves a claim, ends one or keeps it, and since when it remembers a NIC being configured |
| Uplink.Syncer.SyncUplink | packages/backend/src/services/bridgeService.ts:81-114 | one pass: the steps taken, the claim and since when the NIC is being waited for |
| Uplink.ClaimEndsByTaking | packages/backend/src/services/bridgeService.ts:155-159 | over every run only a pass that takes the NIC ends a claim |
| Uplink.NotTakenWhileClaimed | packages/backend/src/lib/managedBridge.ts:61-66 | once a pass has seen an address or default route none takes the NIC until one has seen networkd let go of it |
| Uplink.HeldForHostConfig | packages/backend/src/lib/managedBridge.ts:80-92 | a NIC taken while networkd configures it has been seen so by every pass for at least 150 s |
| Uplink.TakenAfterHold | packages/backend/src/services/bridgeService.ts:96-104 | and the wait ends: a pass 150 s after one that found the NIC waiting, as all between did, takes it |
| Console.Backlog.Append | packages/backend/src/lib/serialConsole.ts:24-40 | the chunks held are always exactly the last min(cap, total) bytes of the stream |
| Console.Backlog.SinceOffset | packages/backend/src/lib/serialConsole.ts:43-46 | the stream from the offset on, exactly when start <= offset <= total |
| Console.Backlog.Replay | packages/backend/src/lib/serialConsole.ts:53-59 | a suffix of the stream, at the offset it reports |
| Console.ReplayStartsALine | packages/backend/src/lib/serialConsole.ts:48-59 | a replay begins at the session's start, after the first newline among the oldest 4096 bytes held, or at the oldest byte if those have none |
| Console.EveryViewerIsExact | packages/backend/src/console.ts:185-208 | over every run of output, drops and reconnections a viewer, also one that brings an earlier session's epoch, has shown one gap-free stretch of the stream, and is up to date with an empty wire |
| Console.ReconnectResumesIfItCan | packages/backend/src/console.ts:189-208 | a viewer goes on where it was exactly when the backlog reaches back that far |
| Console.ConnectingCatchesUp | packages/backend/src/console.ts:185-208 | at any moment of any session a page that connects has, when all it was sent has arrived, shown the output to the end, from its own first byte exactly when no more than the cap came since |
| BannerFilter.Filter.Push | packages/backend/src/lib/serialConsole.ts:91-106 | what one chunk passes on and what stays held back |
| BannerFilter.PrefixCouldBeBanner | packages/backend/src/lib/serialConsole.ts:65-73 | every proper prefix of a banner still could be one, and is not one yet |
| BannerFilter.MatchBannerIs | packages/backend/src/lib/serialConsole.ts:62-63 | the expression's match is the line that names the domain and the line that names the escape character, each with any text, ended by LF or CRLF |
| BannerFilter.CouldBeIs | packages/backend/src/lib/serialConsole.ts:65-73 | which text of one, two and more lines may be held back: each of its first two lines and the words it would need begin one the other, and a third is empty |
| BannerFilter.NothingElseIsLost | packages/backend/src/lib/serialConsole.ts:82-114 | wherever cuts and flushes fall, what is shown is the input, or the input without its leading banner |
| BannerFilter.NoBannerNoChange | packages/backend/src/lib/serialConsole.ts:82-114 | input with no banner passes through untouched |
| BannerFilter.WhatIsShown | packages/backend/src/lib/serialConsole.ts:91-106 | for each way of cutting input with a banner, whether the banner is shown |
| BannerFilter.CutsMatterOnlyForLongBanners | packages/backend/src/lib/serialConsole.ts:100 | all ways of cutting the input show the same if and only if it has no banner of more than 513 characters |
| BannerFilter.CutsMatterOnlyForLongNames | packages/backend/src/lib/serialConsole.ts:62-63 | virsh's banner for a name: cuts matter if and only if the name and the escape character's text have more than 471 characters |
| BannerFilter.LongNameIsShown | packages/backend/src/lib/serialConsole.ts:91-106 | a name of 600 letters: dropped in one chunk, shown in two |
| Passthrough.GroupEndpoints | packages/backend/src/lib/hostDevices.ts:475-485 | the loop over the functions gives the groups |
| Passthrough.GroupsAreGroups | packages/backend/src/lib/hostDevices.ts:474-485 | each group is all the functions but bridges of one isolation group, or one function alone, with no key twice |
| Passthrough.BuildInventory | packages/backend/src/lib/hostDevices.ts:513-616 | the loops build the inventory the lemmas are about |
| Passthrough.EveryFunctionOnce | packages/backend/src/lib/hostDevices.ts:513-616 | every function is in exactly one place: hidden, a device's lead, or a device's member |
| Passthrough.HostKeepsWhatItNeeds | packages/backend/src/lib/hostDevices.ts:526-543 | nothing the host uses and no bound essential chipset function is ever a lead or a member |
| Passthrough.InventoryWellMade | packages/backend/src/lib/hostDevices.ts:533-553 | a device is led by the first of its group by kind and address, with exactly the rest that is offered or has a driver other than vfio-pci and pci-stub, and nothing the host needs is in the group |
| Passthrough.OfferedIff | packages/backend/src/lib/hostDevices.ts:515-553 | a function's group is offered exactly when something in it can be, the host uses nothing in it, and none of it is of the chipset with a driver |
| Passthrough.HiddenSaysWhy | packages/backend/src/lib/hostDevices.ts:513-553 | a hidden bridge is said to be one; of the rest, what is of an offered kind is said to be the host's, any other what it is, or the host's when that needs it |
| Passthrough.AttachedCanStart | packages/backend/src/services/deviceService.ts:577-586 | what is attached for a device of a group leaves nothing in the way of its start |
| Passthrough.UngroupedCanStart | packages/backend/src/services/deviceService.ts:579-581 | a device of no group can start exactly when no other function without one has a host driver |
| Passthrough.UngroupedIsBlocked | packages/backend/src/services/deviceService.ts:579-581 | two functions without a group, one offered and not able to start |
| Totp.AlphabetIsB32 | packages/backend/src/lib/totp.ts:3-11 | the letters and their values are those of B32, and nothing else has one |
| Totp.B32Encode | packages/backend/src/lib/totp.ts:23-37 | the text is the bytes' number written in base 32, zero bits after, though the accumulator wraps at 32 bits |
| Totp.B32Decode | packages/backend/src/lib/totp.ts:5-21 | the bytes are the whole octets at the front of the text's bits, other characters skipped |
| Totp.RoundTrip | packages/backend/src/lib/totp.ts:5-37 | decoding an encoding gives the bytes back, for every byte sequence |
| Totp.RoundTripOf | packages/backend/src/lib/totp.ts:6-12 | and so it does from any text with the same alphabet characters, in any case, spaced or padded |
| Totp.WritesUnique | packages/backend/src/lib/totp.ts:23-37 | what encoding promises fixes the text |
| RateLimit.Limiter.Middleware | packages/backend/src/lib/rateLimit.ts:47-71 | whether a request is let through, and its bucket afterwards, with every other key's as it was |
| RateLimit.Limiter.CollectGarbage | packages/backend/src/lib/rateLimit.ts:39-45 | the whole store after a collection |
| RateLimit.Limiter.Reset | packages/backend/src/lib/rateLimit.ts:73-75 | the key's bucket goes and every other stays |
| RateLimit.BucketIsHistory | packages/backend/src/lib/rateLimit.ts:61-69 | within the window a bucket holds exactly the key's accepted times since its last reset, whatever was dropped from it |
| RateLimit.AcceptedIff | packages/backend/src/lib/rateLimit.ts:47-71 | over every run a request is let through exactly when no request of its key that was over the limit began a block that still lasts, and fewer than max were let through in the window that ends with it, since the last reset |
| RateLimit.AtMostMaxPerWindow | packages/backend/src/lib/rateLimit.ts:47-71 | over every run each key has at most max accepted requests since its last reset in every window (s, s + windowMs] |
| RateLimit.NeverReset | packages/backend/src/lib/rateLimit.ts:73-75 | for a key that is never reset, that is all its accepted requests |
| RateLimit.CollectingChangesNothing | packages/backend/src/lib/rateLimit.ts:38-45 | collections at any moments change no request's answer |
| RateLimit.CollectionLeaves | packages/backend/src/lib/rateLimit.ts:39-45 | a collection leaves exactly the keys with a recent hit and those blocked until now or later |

## Left out

- Commands' text, XML, JSON and regular expressions over tools' output: commands are datatypes. The banner filter is the exception.
- Files, processes, libvirt, HTTP routes, sockets and logs; failures are outcomes only where a property says so.
- Backups: image contents, the tiers of copying, compression, checkpoints inside libvirt, reconciling them, restoring, and several operations on one VM at once.
- Backups: a delete of an ID with no manifest clears its directory, which no list of manifests shows.
- BackupRetention.RetentionIsExact: says nothing of lists whose links cycle, which no run reaches (`BackupRuns.ReachableRetention`); `LeavesLargestSupported` covers those.
- Firewall: configurations with no rules and both defaults allow, which are taken out of force instead of compiled; the fall-back to default policy when iptables rejects the rules.
- FirewallLayers.LayersAgree: is about packets of new connections, as the layers treat replies differently on purpose (`FirewallLayers.IptablesDecides` and `ConnMarks.InChainMarks` say how); fragments, tagged frames and IPv6 are only on the bridge.
- Connection marks: the host's marking of connections a VM already had, helpers' expected connections that begin with their master's mark, and a number passing from a deleted VM to a new one.
- The rate limits in the always-pass list: whether there is room is an input of the frame.
- nft's sets and maps and what is read back of them (`parseFilterState`, `portsScript`): who owns a tap is an input of each frame.
- FORWARD: a jump in another form that names a block, which raising refuses; NAT rules, boot files, the restart of the host and the reading of addresses from leases and neighbours, which are inputs of a pass.
- Network holds: addresses of a pool, port forwards and bridges' own removal between the checks and the commit.
- VXLAN: the tunnel's own firewall rules (`tunnelRules`, `tunnelsListening`), and a bridge name that is the empty string.
- Managed bridges: libvirt definitions, several networks sharing a pass, and `ip` steps that fail.
- Console: the pty, input filtering, lingering and the end of a session; text decoding in the page.
- Passthrough: the class codes `classifyPci` knows, names, notes and facts, USB devices, and who uses a device; a function's class is an input.
- The limiter's response headers and key extraction.
- The calendar of schedules, authentication, metrics, cloud-init and the React frontend, but for how a console page counts bytes.
