# kelinode-rs: a verified model

kelinode-rs is a node agent: it keeps the port-forwarding rules of a host, the users of each node, the set of
running nodes and the configuration of a proxy core in line with what a panel wants. This project models its hard
parts in Dafny and proves what they promise. Every method below is proved equal to a specification function, and
the theorems are about those functions, for all inputs, all states or all runs.

* **Port forwarding** (`PortText`, `PortPlanner`, `SpecText`, `ManagedRules`, `Firewall`, `RuleSpecs`, `Repair`,
  `Inspection`, `Control`, `Routing`; and the same in terms of the inputs alone: `PortLaws`, `PlanLaws`, `SpecLaws`,
  `Kernel`, `Reports`). Port text is compiled into iptables matchers; a planner gives every external
  port to the first node that claims it; rules are printed, listed back by a kernel that may rewrite them, compared
  by normalised key and repaired by commands. The firewall is a class with one step per command; the kernel's
  rewriting is any function that keeps the normal form. The HY2 and Mieru builders share one definition with the
  family as a parameter. The chain of results: port text means what it says; the plan is exact; repair converges
  from any state, interrupted ones included; the inspection is exact; a control round settles both families; and a
  clean firewall sends every port where the plan wants it.
* **User replication** (`UserSync`, `DeltaDiff`, `UserReplica`). Deltas over a uuid-keyed ordered map, a fast diff
  that must agree with applying the delta, and a replica that follows the panel over any history.
* **Node reconciliation** (`Nodes`, `NodeLaws`). A transactional state machine with early exits, retained nodes,
  counters and a full-reload escape.
* **Calendar** (`Calendar`). The closed-form day-to-date conversion against a calendar that counts day by day.
* **Path cleaning** (`PosixPath`). A stack machine over path components against the walk a path denotes.
* **Core configuration** (`UserSharing`, `RouteOutbounds`, `RouteLaws`). Hash-consing of user lists under any
  fingerprint, and the two passes that collect outbounds and render the routes that name them.

`Results`, `Sequences` and `Text` hold outcome types, facts about sequences and the string operations the rest
relies on. `dafny verify dfyconfig.toml` checks everything.

Some natural claims are false of the code. Each of these is stated with the exact condition under which it holds:
normalising a rule twice (`SpecText.NormalizeIsIdempotent`), trusting a report on arbitrary text
(`Inspection.InspectionIsExact`; on what iptables prints it holds, `Control.PrintedInspectionIsExact`), listing every
extra rule by its own text (`Reports.ExtraIsExact`), resuming an interrupted repair
(`Control.InterruptedCallRecovers`), normalising a configuration directory twice
(`PosixPath.NormalizeConfigDirIdempotent`), narrowing the year to 32 bits (`Calendar.CivilIsTheCalendar`), the fast
diff (`DeltaDiff.FastDiffAgreesExactly`), rebuilding a list from its diff with additions first
(`UserReplica.DiffRebuildsAddedFirst`), replicas told that nobody is left (`UserReplica.ReplicaConverges`), and
both families' plans on one chain (`Routing.BothFamiliesServedExactly`).

## Model

| member | source | states |
|---|---|---|
| PortText.CompileIsFaithful | src/port_forward.rs:1485-1617 | Port text is accepted exactly when each of its tokens is, with the first token's error otherwise; the ranges hold the named ports (PortLaws.NamedPortsIsExact) minus the excluded one, and the matchers, read back from their own arguments, name those ranges in order. |
| PortText.ParseMatchersAndRanges | src/port_forward.rs:1485-1590 | The loop over tokens with its three buffers computes the compiled matchers and ranges, or the error. |
| PortLaws.TokenIsExact | src/port_forward.rs:1499-1517 | A token is read as a range exactly when it spells that range: one number, or two in order with a dash or a colon between them, each of digits, perhaps behind a plus sign, worth 1 to 65535. |
| PortLaws.NamedPortsIsExact | src/port_forward.rs:1485-1617 | A panel field is accepted exactly when, without its blanks and the whitespace around it, it is not empty and each of its comma-separated tokens spells a range; those are the ranges, in order. |
| PortLaws.ItemsAreRead | src/port_forward.rs:1485-1617 | Decimal ports, a-b and a:b, joined by commas, with any blanks strewn in and any whitespace around, name exactly those ranges, in order. |
| PortLaws.FlawsAreRefused | src/port_forward.rs:1485-1617 | A text whose first bad token is empty, zero, above 65535, beyond 32 bits, reversed, of three parts, open at an end or not a number is refused with the error of that fault, whatever good items stand before it and whatever comes behind. |
| PortLaws.CompileSubtracts | src/port_forward.rs:1520-1590 | The ranges of a compiled text are the named ones with the excluded port cut out, in their order. |
| PortText.FlushKeepsEveryPort | src/port_forward.rs:1536-1562 | Chunking single ports into matchers of 2 to 15 (or one plain port) loses, repeats and reorders none. |
| PortLaws.FlushIsFull | src/port_forward.rs:1536-1562 | Single ports go into as few matchers as fifteen to a matcher allow. |
| PortText.FlushSingles | src/port_forward.rs:1536-1562 | The chunking loop empties its buffer into exactly those matchers. |
| PortText.ChunkReadsBack | src/port_forward.rs:1536-1562 | A matcher's own port argument parses back to the ports it was built from. |
| PortText.PackKeepsEveryRange | src/port_forward.rs:1723-1742 | Packing ranges loses, repeats and reorders nothing; every multiport matcher is within its size limits and every range matcher spans more than one port. |
| PortText.MatchersFromRanges | src/port_forward.rs:1723-1742 | The packing loop over ranges and pending singles computes that packing. |
| PortText.SubtractIsExact | src/port_forward.rs:1697-1721 | Subtraction removes the blocked ports and no others and keeps ranges proper, at both ends of the port space. |
| PortLaws.SubtractFilters | src/port_forward.rs:1697-1721 | Subtraction takes the blocked ports out of the list of ports and leaves every other in its place. |
| PortText.SubtractRange | src/port_forward.rs:1697-1721 | The subtraction loop computes that result. |
| PortPlanner.TrimTargetsIsExact | src/port_forward.rs:1658-1670 | Trimming removes every port some node of the family listens on, except the node's own. |
| PortPlanner.TrimTargetPortConflicts | src/port_forward.rs:1658-1670 | The trimming loop over target ports computes that result. |
| PortPlanner.TrimAllocatedIsExact | src/port_forward.rs:1672-1685 | Trimming removes exactly the ports already given to a different target under the same protocol. |
| PortPlanner.TrimAllocatedRangeConflicts | src/port_forward.rs:1672-1685 | The trimming loop over allocations computes that result. |
| PortPlanner.NodeClaimIsExact | src/port_forward.rs:126-160 | A node claims a port, its own aside, exactly when it takes part under that protocol and its port text names it. |
| PlanLaws.ClaimsAreAsked | src/port_forward.rs:1619-1656 | In terms of a node's fields alone: it claims the ports named by `port`, or by `ports` where `port` is blank (Mieru the other way round), while its server port is not 0 and it speaks the protocol; a Mieru node without a transport speaks tcp. |
| PlanLaws.RejectedIsWrong | src/port_forward.rs:126-160 | A node is rejected exactly for a server port of 0, a transport that is neither tcp nor udp, or a port text that is refused, in that order, and with that error. |
| PortPlanner.RuleKeyIsInjective | src/port_forward.rs:180-191 | Rules with the same deduplication key forward the same ports to the same place. |
| PlanLaws.RulesAreDistinct | src/port_forward.rs:180-191 | No two rules of a plan have the same protocol, target and arguments. |
| PlanLaws.RulesGrow | src/port_forward.rs:120-195 | One more node adds rules behind those there are. |
| PortPlanner.AddMatchersIsExact | src/port_forward.rs:180-191 | Dropping a rule whose key was seen loses no port. |
| PortPlanner.RemainingIsExact | src/port_forward.rs:161-162 | What a claim has left is what no node of the family listens on and no earlier node with another target claimed. |
| PortPlanner.PlanUpToIsFaithful | src/port_forward.rs:120-195 | After any number of nodes, allocations and rules both say exactly which target each port got so far. |
| PortPlanner.PlanIsExact | src/port_forward.rs:120-285 | All rules matching a port share one target, that of the first claiming node in input order; a port some node of the family listens on matches no rule; for HY2, and for Mieru per protocol. |
| PlanLaws.PlannedTargetIsFirstAsked | src/port_forward.rs:120-285 | A port is planned for the server port of the first node whose fields ask for it, and for none exactly when no node asks or some node of the family listens on it. |
| PlanLaws.PlanFollowsFields | src/port_forward.rs:120-285 | The rules of a plan send a port exactly there. |
| PortPlanner.FullyCoveredIsExact | src/port_forward.rs:161-169 | A node is reported as fully covered exactly when each port it asks for, its own aside, is listened on or went to an earlier node with another target. |
| PlanLaws.ComplaintsAreExact | src/port_forward.rs:120-195 | Planning one more node complains of what is wrong with it, or else at most that all it asks for is taken. |
| PlanLaws.OwnPortAsksNothing | src/port_forward.rs:147-160 | A node with nothing wrong that asks for no port beside its own leaves the plan as it was, without a complaint. |
| PlanLaws.CoveredIsReported | src/port_forward.rs:161-169 | In terms of the nodes' fields: a node is reported as covered exactly when each port it asks for, its own aside, is listened on or was first asked for by an earlier node with another server port. |
| PortPlanner.AppendRules | src/port_forward.rs:180-191 | The inner loop over matchers adds the rules, keys and nothing else. |
| PortPlanner.BuildRules | src/port_forward.rs:120-285 | The loop over nodes with its rules, seen keys, allocations and errors builds the plan. |
| SpecText.ParseIptablesSpec | src/port_forward.rs:1279-1311 | The character loop with its open quote tokenises a listed line. |
| SpecText.ParseUndoesPrint | src/port_forward.rs:1279-1311 | Tokenising a printed rule gives its fields back, whichever fields are printed in double quotes and whichever bare, as long as those with blanks or apostrophes are quoted. |
| SpecLaws.LaidFieldsAreRead | src/port_forward.rs:1279-1311 | Fields in double quotes, in single quotes or bare, with blanks and tabs between them and around, are read as those fields. |
| SpecLaws.OpenQuoteTakesTheRest | src/port_forward.rs:1279-1311 | A quote that is never closed takes the rest of the line as one field. |
| SpecText.ParseUndoesJoin | src/port_forward.rs:1279-1311 | Tokenising plain words joined by blanks gives the words back. |
| SpecText.NormalizeSpecFields | src/port_forward.rs:1314-1336 | The index loop with its skips computes the normalised fields. |
| SpecLaws.ImplicitMatchVanishes | src/port_forward.rs:1314-1336 | Inserting `-m udp` or `-m tcp` anywhere behind a field that is neither `-m` nor `--comment` leaves the normal form as it was, for all lists. |
| SpecLaws.NormalizeKeepsFields | src/port_forward.rs:1314-1336 | Without such matches every field stays in its place, and only values of comments change, by their outer quotes. |
| SpecLaws.TrimQuotesTakesEnds | src/port_forward.rs:1325-1329 | Trimming takes quotes of either kind off both ends and nothing else. |
| SpecText.NormalizeIsIdempotent | src/port_forward.rs:1314-1336 | For every list, normalising twice changes nothing exactly when no two fields the first pass keeps come to stand next to each other as an implicit match, or as a comment option with a value that still has quotes to trim. |
| SpecText.NormalizeTwiceDiffers | src/port_forward.rs:1314-1336 | The list -m -m udp udp, on which normalising twice goes further than once. |
| SpecText.ShapedIsSettled | src/port_forward.rs:1314-1336 | Lists in which options are followed by their values, without quotes around fields, are on the idempotent side. |
| SpecText.DropKeepsPairs | src/port_forward.rs:1314-1336 | Normalising neither makes nor breaks a jump or comment pair. |
| SpecText.KeyIsInjective | src/port_forward.rs:1338-1340 | Plain lists have the same key exactly when they normalise to the same fields. |
| SpecText.KeySurvivesText | src/port_forward.rs:745-801 | For rules of plain words in which options are followed by their values, normalising, joining by blanks and tokenising again gives the normalised fields and the same key. |
| SpecText.SameKeyKeepsPair | src/port_forward.rs:745-801 | Whatever blanks and apostrophes a rule's fields hold, if its text is keyed like a rule of plain words, every plain option pair of the rule is a pair of that one. |
| SpecText.SameKeyKeepsCount | src/port_forward.rs:745-801 | Likewise, if its text is keyed like a rule of plain words, every plain word of the rule that is no part of an implicit match stands in that one at least as often. |
| ManagedRules.ManagedMeansPairs | src/port_forward.rs:1240-1277 | A listed rule is managed exactly when its options hold the family's comment, or HY2's old jump (and, in INPUT, the accept jump). |
| ManagedRules.SameFormSameOwner | src/port_forward.rs:1236-1277 | Rules with the same normal form are managed by the same families, whatever implicit matches the kernel added. |
| Kernel.KernelIsFaithful | src/port_forward.rs:1314-1336 | The kernel that lists `-m` with the protocol behind the `-p` of each rule is one of those all results about firewalls hold for. |
| Kernel.KernelRewritesForwards | src/port_forward.rs:1162-1181 | That kernel does rewrite: every forwarding rule comes back with the match behind its protocol. |
| ManagedRules.SelectFromLines | src/port_forward.rs:1200-1234 | Looking through all listed lines finds exactly the chain's managed rules; policy and chain lines never count. |
| ManagedRules.PrintedRulesList | src/port_forward.rs:1200-1234 | A printed chain lists back as its rules, whatever else the firewall puts in quotes. |
| Firewall.Firewall.List | src/port_forward.rs:668-716 | Listing a chain, with quotes around any fields, gives lines that read back as its rules. |
| Firewall.Firewall.RunCommand | src/port_forward.rs:1073-1081 | A command takes its step, or fails and changes nothing. |
| Firewall.Firewall.Execute | src/port_forward.rs:1073-1081 | Commands run in order and stop at the first failure, keeping what ran before it. |
| Firewall.RunConcat | src/port_forward.rs:1073-1081 | Running two lists of commands is running one after the other. |
| RuleSpecs.MieruAllowsIsExact | src/port_forward.rs:451-473 | The deduplicated allow rules cover exactly the protocols and targets of the forwarding rules. |
| RuleSpecs.MieruAllowsAreDistinct | src/port_forward.rs:451-473 | No allow rule is written twice. |
| RuleSpecs.MieruAllowsFollowRules | src/port_forward.rs:451-473 | Allow rules stand in the order of the forwarding rules that need them first. |
| PlanLaws.HysteriaAllowsAreExact | src/port_forward.rs:102-118 | HY2 opens exactly the server ports of its nodes, with or without a range, once each and in ascending order. |
| PlanLaws.MieruAllowsAreExact | src/port_forward.rs:451-473 | Mieru opens exactly the targets planned for some port, for the protocol they are planned for. |
| RuleSpecs.ForwardIsWritten | src/port_forward.rs:1162-1181 | A planned forwarding rule is plain, already normal and managed by its own family only. |
| PlanLaws.HysteriaRulesAsWritten | src/port_forward.rs:1142-1198 | Word for word, the forwarding and allow rule that an HY2 node makes the agent write for a range in `port`, or in `ports` where `port` is blank. |
| PlanLaws.MieruRulesAsWritten | src/port_forward.rs:1142-1198 | The same for a Mieru node, tcp or udp. |
| RuleSpecs.AllowIsWritten | src/port_forward.rs:1183-1198 | So is an allow rule. |
| RuleSpecs.PlanIsWritten | src/port_forward.rs:1142-1198 | Everything written for a plan is plain, already normal and managed by its own family only. |
| RuleSpecs.PlanIsOwn | src/port_forward.rs:1142-1198 | Every rule written for a plan uses the agent's own option words only, with one comment. |
| RuleSpecs.TargetsAreAllowed | src/port_forward.rs:102-118 | Every target a plan forwards to has its allow rule. |
| Repair.DeleteCommands | src/port_forward.rs:1094-1140 | The loop over listed lines deletes each managed rule once, by its listed fields. |
| Repair.ReconcileCommands | src/port_forward.rs:827-988 | Deletions of both chains, removal of the old chain, additions and insertions, in that order; for HY2 and Mieru, and for cleanup with nothing to write. |
| Repair.CommandsComeInPhases | src/port_forward.rs:827-959 | Deletions in PREROUTING, deletions in INPUT, the two commands on the old chain, additions, insertions: in every command list each phase stands before the next. |
| Repair.DeletesClear | src/port_forward.rs:1094-1140 | Every delete command finds its rule, duplicates included; afterwards exactly the foreign rules are left, in order. |
| Repair.ChainGoes | src/port_forward.rs:837-846 | Once every jump is gone the old chain is flushed and removed without error. |
| Repair.CommandsFromListing | src/port_forward.rs:990-1019 | Any listing of the same firewall leads to the same commands. |
| Repair.RepairConverges | src/port_forward.rs:827-1071 | From any state no command fails and the result is: foreign PREROUTING rules in order, then the wanted ones; the allow rules last written first, then the foreign INPUT rules; HY2's old chain gone. |
| Repair.InterruptedRepairRecovers | src/port_forward.rs:961-1071 | Commands cut short anywhere leave foreign rules alone, and the commands computed anew from there, run as a cleanup runs them, reach the same state as the uninterrupted ones. What a repair call does, which inspects first, is Control.InterruptedCallRecovers. |
| Inspection.StatusFromListing | src/port_forward.rs:620-716 | Any listing of the same firewall yields the same report. |
| Reports.ReportLists | src/port_forward.rs:745-801 | A report lists under expected the wanted rules and under current the managed ones, PREROUTING first, in order, as texts of their normal forms. |
| Reports.MissingIsExact | src/port_forward.rs:780-784 | A text is missing exactly when it is that of a wanted rule whose form no managed rule of its chain has. |
| Reports.ExtraIsExact | src/port_forward.rs:785-789 | A text is extra exactly when it is that of a managed rule whose form is not wanted and, of the managed texts with its key, the last listed. |
| Reports.PlainExtraIsExact | src/port_forward.rs:785-789 | Where the managed rules are plain words, a text is extra exactly when it is that of a managed rule whose form is not wanted. |
| Reports.GapsHideARule | src/port_forward.rs:773-789 | Two rules that differ only in a gap inside a comment: they share a key, and the report lists the second as extra and not the first. |
| Inspection.SameKeySameForm | src/port_forward.rs:745-801 | Expected and listed keys match exactly when the normalised fields do; rules of different chains never match. |
| Inspection.InspectionIsExact | src/port_forward.rs:745-809 | A report that asks for a repair is right: a wanted form is missing, an unwanted managed one is there, or the old chain is left; order and duplicates do not count. The report is right exactly when it asks for one or no managed rule has a blank inside a field. |
| Inspection.BlankFieldMisleads | src/port_forward.rs:745-801 | A text no firewall prints: a rule that runs an option word and its value together into one field is reported as the wanted rule. |
| Control.RepairedIsInSync | src/port_forward.rs:345-412 | After a repair both chains are in sync and the other family's rules are those it had, in order. |
| Control.AfterRepairIsClean | src/port_forward.rs:345-412 | One repair call from any state succeeds and leaves its family's inspection clean. |
| Control.CleanReadsPlainly | src/port_forward.rs:745-801 | Under a clean report a family's rules are plain words exactly when they are as iptables prints rules: quoted text only behind options that take text. |
| Control.PrintedInspectionIsExact | src/port_forward.rs:745-809 | A report on a plan is clean exactly when everything is in sync, on every firewall whose managed rules are as iptables prints rules; a clean report on any other is wrong. |
| Control.InterruptedCallRecovers | src/port_forward.rs:345-412 | A repair call cut short after any command: the next call ends clean with the foreign rules in order, and leaves what the whole call would have left exactly when it finds something to repair or the cut was there already. |
| Control.CutCallStays | src/port_forward.rs:371-378 | For every plan that forwards something: a call cut after deleting a stale rule in front of the wanted ones leaves a clean report, so the next call stays there, with the wanted rules in front of foreign ones that the whole call would have left in front. |
| Control.CleanRulesAreOwn | src/port_forward.rs:745-801 | Under a clean HY2 report no HY2 rule carries the Mieru mark as well. |
| Control.RepairKeepsOtherClean | src/port_forward.rs:495-563 | From any state with a clean HY2 report, a Mieru repair leaves that report, and how the HY2 rules read, as they were. |
| Control.RoundSettles | src/control.rs:141-158 | From any start, one round, HY2 then Mieru, ends with both clean; every further round issues no command and changes nothing. |
| Kernel.KernelRoundSettles | src/control.rs:141-158 | Under that kernel one round ends with both families clean and the next issues no command. |
| Control.RoundReadsPlainly | src/control.rs:141-158 | After a round a family's rules have no blank inside a field exactly when they had none at its turn or its report asked for a repair. |
| Control.InspectTool | src/port_forward.rs:620-716 | Listing, tokenising and comparing gives the report on the current firewall. |
| Control.ExecuteRepair | src/port_forward.rs:990-1071 | Listing, computing and running the commands leaves the repaired firewall. |
| Control.RepairTool | src/port_forward.rs:345-412 | As root a tool ends clean; otherwise nothing changes, and the refusal is reported exactly when something is wanted or out of sync. |
| Control.Round | src/control.rs:141-158 | The control loop's two repairs leave the firewall of one round, both reports clean. |
| Control.Cleanup | src/port_forward.rs:961-1046 | Cleanup removes every HY2 rule and the old chain, and keeps every other rule in order. |
| Routing.ForwardMeaning | src/port_forward.rs:1162-1181 | A written forwarding rule accepts exactly the packets of its protocol to its matcher's ports, as the kernel reads the argument; its jump is REDIRECT, without which a rule redirects nothing, and it redirects to its target. |
| Routing.AllowOpens | src/port_forward.rs:1183-1198 | A written allow rule accepts packets of its protocol to its port. |
| Routing.CleanFirewallRoutesAsPlanned | src/port_forward.rs:120-285 | End to end: whenever inspection reports nothing, first match over the family's rules sends every port of every protocol exactly where the plan wants it, whatever their order and number, and over the whole chain when no other rule accepts the packet. |
| Routing.CleanFirewallOpensTargets | src/port_forward.rs:102-118 | On a clean firewall first match over the family's rules in INPUT accepts every planned target, and so does the whole chain when no other rule matches the packet. |
| Routing.RepairedOpensTargets | src/port_forward.rs:868-894 | After a repair first match over the whole INPUT chain accepts every planned target, whatever rules stand behind. |
| Routing.RoundOpensTargets | src/control.rs:141-158 | After one round first match over the whole INPUT chain accepts every planned target of a family whose report asked for a repair at its turn; the Mieru rules put in front of HY2's accept too. |
| Routing.RoundRoutesAsPlanned | src/control.rs:141-158 | From any firewall that iptables prints, one round makes each family's rules route every port as planned. |
| Routing.BothFamiliesServedExactly | src/control.rs:141-158 | With both families clean, the whole chain serves both plans for a port exactly when they do not want it sent to different targets. |
| Routing.FamiliesMayCollide | src/port_forward.rs:1619-1644 | Two nodes, HY2 and Mieru over udp, that are both planned for the same port with different targets. |
| UserSync.ApplyUserDelta | src/user.rs:105-135 | The loops over deletions and upserts compute the next users and the three reports. |
| UserSync.ValuesAreTheMap | src/user.rs:130-133 | The values of the ordered map are strictly sorted by uuid, are exactly its users, and read back as the map. |
| UserSync.TextLessIsLexicographic | src/user.rs:105-135 | The order the users are sorted in: one uuid comes before another where it is a proper prefix, or has the smaller character where they part. |
| UserSync.DeltaReplays | src/user.rs:105-135 | Taking the reported deletions out of the old users, then inserting the reported additions and updates, gives exactly the next users, for any duplicates and overlaps; they are strictly sorted and the counts add up. |
| UserSync.DeleteAllTakesOut | src/user.rs:113-117 | Exactly the users with a deleted uuid are taken out, each reported once. |
| UserSync.DeltaLookup | src/user.rs:105-135 | Under each uuid a delta leaves the last upsert, else what was there unless it was deleted. |
| DeltaDiff.CompareIncrementalDelta | src/user.rs:266-295 | The loop of the fast diff, consuming its map of upserts, computes the fast diff. |
| DeltaDiff.SeeAllUnder | src/user.rs:266-295 | What the fast diff reports under one uuid, from the old users and upserts that carry it. |
| DeltaDiff.UpsertAllUnder | src/user.rs:119-128 | What applying upserts reports under one uuid: the first of them if none was held, then every change of value. |
| DeltaDiff.SameUnderEach | src/user.rs:266-295 | Two reports hold the same users just when they do under each uuid. |
| DeltaDiff.FastDiffAgreesExactly | src/user.rs:218-295 | The fast diff and applying the delta report the same deletions, additions and updates exactly when, under each uuid, a deleted user is listed once, upserts of a user not held all agree, and upserts of a held one move it at most once. |
| DeltaDiff.FastDiffAgrees | src/user.rs:218-295 | With distinct uuids among the old users and among the upserts they always agree, even for a uuid both deleted and upserted. |
| DeltaDiff.RepeatedUpsertsDisagree | src/user.rs:266-295 | A uuid upserted twice with different values, on which the two reports differ. |
| UserReplica.CompareUserList | src/user.rs:137-153 | The loop over the new list, consuming the old map, computes the whole-list diff. |
| UserReplica.DiffRebuilds | src/user.rs:137-153 | Applying a diff's deletions, updates and additions to the old list gives the new list's map, for any lists. |
| UserReplica.DiffRebuildsAddedFirst | src/user.rs:137-153 | With additions before updates it does so exactly when no held uuid is listed first with one new value and last with another; in particular for distinct uuids. |
| UserReplica.ApplyUserDeltaBody | src/user.rs:155-185 | Applying a body, full or incremental, with the empty cases that only move the revision. |
| UserReplica.BodyIsApplied | src/user.rs:155-185 | A body moves the revision and the users and nothing else: a full listing is taken as it is, an increment leaves the users sorted, a body that names nobody leaves them; feeding the reported diff back gives the users the replica ends with. |
| UserReplica.BodyDiffAgreesExactly | src/user.rs:218-226 | The diff a body announces is the diff applying it reports: always for full bodies and empty deltas, otherwise exactly when each uuid is agreeable. |
| UserReplica.FullListIsTaken | src/user.rs:228-245 | A plain full list is taken over exactly when it names someone or nobody was held; revision and time never move, and the diff rebuilds the result. |
| UserReplica.MoveConverges | src/user.rs:155-185 | A replica in step with the panel stays in step over one body, except when told by a full listing that nobody is left. |
| UserReplica.ReplicaConverges | src/user.rs:155-185 | Over any history of full and incremental bodies the replica holds the panel's users and revision after every step exactly when no empty full listing drops a user. |
| Nodes.KeyIsInjective | src/node.rs:434-441 | Usable nodes share a key exactly when they share host and id. |
| Nodes.KeyFromUrl | src/node.rs:434-441 | The key of a node in terms of its url: the host without the whitespace around and the slashes behind it, a hash sign and the id; none without a host or with id 0. |
| Nodes.SlotsOfDistinct | src/node.rs:332-347 | Slots exist exactly when every running node has a key of its own, and then they hold exactly the running nodes. |
| NodeLaws.FirstClashEnds | src/node.rs:332-347 | The first running node without a key, or with that of an earlier one, makes every call end with its error. |
| Nodes.NodeManager.CurrentSlots | src/node.rs:332-347 | The loop over running nodes fills the slots or stops at the first node without a key of its own. |
| Nodes.NodeManager.ScanDesired | src/node.rs:101-152 | The loop over desired nodes fills keys, candidates, order and failures, or stops at the first failure. |
| Nodes.ScanAllScans | src/node.rs:101-152 | A scan lists the usable desired keys, each at its first occurrence and in that order, and its candidates are what loading the first node with each key answered. |
| Nodes.ScanErrsExactly | src/node.rs:384-400 | A scan ends in an error exactly when errors are not tolerated and some node has no usable key, repeats one, fails to load, or loads nothing while not running; when tolerated, failures are noted exactly then. |
| NodeLaws.FailuresAreListed | src/node.rs:384-400 | When errors are tolerated the failures noted are those of the failing nodes, in order, each with its own reason. |
| NodeLaws.FirstFailureEnds | src/node.rs:384-400 | When they are not, the scan ends with the reason of the first failing node. |
| Nodes.SkippedIsExact | src/node.rs:111-152 | The failures noted are as many as the nodes that fail, and what is skipped is those and the running nodes that loaded nothing. |
| Nodes.FullReloadIsExact | src/node.rs:402-428 | A full reload is asked for exactly when committing would add, drop or change a node with custom routes. |
| Nodes.NodeManager.Reconcile | src/node.rs:91-205 | The whole step on the manager's fields computes the specified outcome: new state and result in every exit. |
| NodeLaws.ExitsAreExact | src/node.rs:91-205 | Which exit a call takes, from the answers alone: the first failure's error, only the failures noted, the full-reload answer, or the commit; with the state and result of each. |
| Nodes.OneCallKeeps | src/node.rs:91-205 | One call is all or nothing: an error or a full-reload answer leaves the whole state alone, and when every node failed only the failures are recorded; it keeps keys distinct and nodes with custom routes as they are, and is refused when nodes share a key. |
| Nodes.CommitConserves | src/node.rs:166-204 | A commit leaves distinct keys in the order of the desired list, under each key what was just loaded, else the node running; kept, restarted and removed add up to the old size, kept, restarted and added to the new one, and each counter counts what it names. |
| Nodes.DesiredNodesStay | src/node.rs:129-146 | A running node that is still desired is still there after a commit; unchanged when its refresh failed or answered nothing. |
| Nodes.CommitKeepsRoutes | src/node.rs:402-428 | A commit leaves the nodes with custom routes exactly as they were, under every key. |
| Nodes.ReconcileIsIdempotent | src/node.rs:91-205 | When the loader answers the same again, a second call changes nothing; after a commit it reports every node kept and none added, removed or restarted. |
| Nodes.RunsKeepRoutes | src/node.rs:91-205 | Over any run of calls keys stay distinct and no node with custom routes is ever added, dropped or changed; a manager whose nodes share a key refuses every call and stays as it is. |
| Calendar.YearOfEraIsTheYear | src/logging.rs:99-102 | The nested divisions find the year of the era a day falls in, leap day included. |
| Calendar.WideCivilIsInverted | src/logging.rs:96-110 | Month and day are real for the year, and counting days from the date gives the day back, for every day. |
| Calendar.WideCivilIsTheCalendar | src/logging.rs:96-110 | The closed form is the date reached from 1970-01-01 by counting day by day, in both directions, before the year is narrowed. |
| Calendar.CivilIsTheCalendar | src/logging.rs:96-110 | With the year narrowed to 32 bits this holds exactly for the days whose year fits, which are those from day -784353015833 to day 784351576776. |
| Calendar.TimestampIsExact | src/logging.rs:86-94 | The clock fields recombine to the second of the day for every instant, and the date is that of the instant's day exactly up to day 784351576776. |
| Calendar.TimestampRecombines | src/logging.rs:86-94 | Until then the date and the clock together recombine to the seconds since the epoch. |
| Calendar.FormatReadsBack | src/logging.rs:86-94 | The printed text is the year in four digits or more, then month, day, hour, minute and second in two digits each, with their separators, and its numbers are those of the timestamp. |
| Calendar.TimestampsAreDistinct | src/logging.rs:86-94 | Different instants print differently while the year fits. |
| PosixPath.CleanPosixPath | src/config.rs:595-625 | The loop over components with its stack computes the cleaned path. |
| PosixPath.CleaningKeepsTheWalk | src/config.rs:595-625 | A cleaned path leads where the original led, from every directory. |
| PosixPath.CleanPartsIsCanonical | src/config.rs:600-613 | The stack holds no empty, "." or misplaced ".." part: parent steps come first, and only in relative paths. |
| PosixPath.CleaningIsIdempotent | src/config.rs:595-625 | Cleaning twice changes nothing. |
| PosixPath.CleanedTextDecidesTheWalk | src/config.rs:595-625 | Two paths clean to the same text exactly when both or neither are absolute and they lead to the same place from every directory. |
| PosixPath.CleaningShrinks | src/config.rs:595-625 | Cleaning never makes a nonempty path longer. |
| PosixPath.BlankDirIsDefault | src/config.rs:455-462 | A blank directory stands for the default one. |
| PosixPath.NormalizeConfigDirIdempotent | src/config.rs:455-462 | Normalising a configuration directory twice changes nothing exactly when, after trimming, the components that survive cleaning neither end the path with whitespace nor, in a relative path, start it with whitespace. |
| PosixPath.NormalizeConfigDirTwice | src/config.rs:455-462 | A directory on which normalising twice goes further, because trimming comes before cleaning. |
| UserSharing.SharingIsExact | src/core.rs:294-308 | After sharing every inbound's list has its old value, and two inbounds hold the same object exactly when their lists are equal. |
| UserSharing.ShareIdenticalUserLists | src/core.rs:294-308 | The in-place pass with its buckets gives every inbound the first equal list, for any fingerprint, colliding ones included. |
| UserSharing.Find | src/core.rs:299-301 | The search in a bucket finds its first equal list. |
| RouteOutbounds.CollectRouteOutbounds | src/core.rs:501-520 | The loop over an inbound's routes adds the outbounds they name, or stops at the first error. |
| RouteOutbounds.RenderRoutesForInbound | src/core.rs:522-609 | The loop over an inbound's routes renders them, or stops at the first error. |
| RouteLaws.RouteIsRendered | src/core.rs:522-609 | One route: nothing without match rules or for dns; block, block_ip, block_port and protocol routes, and every blackhole forward, give one block with the targets of their own kind; any other forward that names an outbound gives one action that sends there, with ["*"] as the targets of a default one. |
| RouteLaws.RoutesAreRendered | src/core.rs:522-609 | The rendered list holds one such action for each route that has an effect, in route order, and nothing else. |
| RouteLaws.FirstRefusalDecides | src/core.rs:522-609 | Rendering fails with the error of the first route that is refused: the one its targets or outbound cannot be read with, or that its action is not supported. |
| RouteLaws.InboundsAreRendered | src/core.rs:462-487 | A rendered config holds these lists, one for each inbound, in order. |
| RouteOutbounds.RenderServers | src/core.rs:611-671 | The loops over inbounds and routes add the name servers of dns routes to the configured or built-in ones, or stop at the first error. |
| RouteOutbounds.ServersAreExact | src/core.rs:632-653 | The servers added are exactly those of dns routes with an address, and adding fails exactly when one of them has match rules that give no domains. |
| RouteLaws.ServersFollowRoutes | src/core.rs:632-653 | An inbound adds one server for each of its dns routes whose address is not blank, in order: that address without the space around it, with the route's targets as its domains exactly when it has match rules. |
| RouteLaws.ConfigServers | src/core.rs:611-653 | A config lists the configured servers, or 1.1.1.1 and 8.8.8.8 when there are none, and behind them those of the dns routes of all inbounds, in order. |
| RouteOutbounds.RenderCoreConfig | src/core.rs:462-487 | Validation, collection, name servers and rendering over all inbounds compute the config, or the first error. |
| RouteOutbounds.PushAllKeepsFirst | src/core.rs:673-681 | Pushing once by tag keeps, under each tag, the first outbound that came with it. |
| RouteOutbounds.CollectsWhatInboundsRender | src/core.rs:501-609 | Collecting gathers exactly the outbounds that rendering names, in order; blocking and blackhole routes name none. |
| RouteOutbounds.OutboundsCloseTheRoutes | src/core.rs:462-681 | In every rendered config the tags are distinct, a tag is there exactly when it is "direct" or some rendered action sends to it, and it stands for the first outbound that came with it. |
| RouteLaws.DirectComesFirst | src/core.rs:462-468 | The direct outbound is there and stands first. |
| RouteOutbounds.InboundsName | src/core.rs:522-609 | The tags named by a rendered config are exactly those some forwarding, non-blackhole route sends to. |
| RouteOutbounds.RendersExactly | src/core.rs:462-487 | A config renders exactly when every inbound is valid, every dns route has its domains and every route renders: collecting never fails on its own. |
| RouteLaws.InvalidInboundIsRefused | src/core.rs:469-472 | The first invalid inbound stops the config with its own error, when nothing before it does. |

## Left out

- DeltaDiff.FastDiffAgrees: needs distinct uuids; the exact condition is DeltaDiff.FastDiffAgreesExactly.
- Repair.RepairConverges: rules are what iptables can list: options behind "-A" and the chain, no field with a double quote or with an apostrophe at either end, no whitespace but blanks.
- Control.RepairTool: one tool; the loop over iptables and ip6tables, missing tools and failing listings are not modelled.
- Control.Round: one tool, always repairing; the inspect-only setting is Control.InspectTool twice.
- Control.Cleanup: one tool, with the rights to change it.
- Routing.CleanFirewallRoutesAsPlanned: the family's rules are as iptables prints rules, with quoted text only behind options that take text. A rule is read as options with one value each, of which -p, --dport, --dports and --to-ports matter; other iptables matches and targets are not modelled.
- Firewall.Firewall.List: quotes are the only dressing of a field. A real listing also puts a backslash before apostrophes, quotes and backslashes in a text; the tokeniser keeps it, so a field here is the text as it is read back. That a delete command for a managed rule with such a text would miss it is not captured.
- Repair.ChainGoes: only jumps in PREROUTING hold the old chain. A jump from another nat chain would make its removal fail, and the repair would stop before any rule is added; such chains are not in the state.
- Inspection.StatusFromListing: missing and extra rules are kept by key, not in the order in which they are reported.
- Nodes.NodeManager.Reconcile: loading answers are a function of position and config; the config's token, machine id, timeout and directory are one compared field, and the debug text of a keyless node in its error is dropped.
- RouteOutbounds.RenderCoreConfig: validation, outbound extraction, blackhole detection and route targets are arbitrary functions; the dns options beside the servers and the constant parts of a config are not rendered.
- UserSharing.ShareIdenticalUserLists: the fingerprint is an arbitrary function; stripping emails beforehand and the string pool are not modelled.
- UserReplica.ApplyUserDeltaBody: the owned variants of the body functions compute the same results and are not repeated.
- Ids, limits and revisions are unbounded numbers; ports are 16-bit, and only the calendar year is narrowed.
- Building a node manager from scratch, activity targets and user sets: each reads off one loop.
- resolve_node_config_dir and normalize_string_list: easy members beside path cleaning.
- Processes, sockets, tasks, clocks and files: only the commands issued and an abstract firewall are modelled.
- Whether applying a config makes the core run it, the health gate, the capability tables, profile merging, realtime messages, JSON, YAML, HTTP, the command line and logging output.
