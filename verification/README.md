# Warp Router: a verified model

Warp Router turns one site configuration into the configuration of a Linux router: it validates the file, renders it
for FRR, nftables and other services, applies the result with backups, keeps every applied configuration as a
revision, and runs a monitor that takes a WAN uplink's default route out of FRR while its probes fail.

This project models that logic in Dafny and proves what it is meant to guarantee:

- **Failover** (`health.dfy`, `routes.dfy`, `failover.dfy`, `system.dfy`, `startup.dfy`). One goroutine per uplink,
  each with at most one callback in flight, interleaved freely; the controller; the route manager with commands that
  may be refused at any point and maps iterated in any order. The classes are proved against transition predicates,
  and the interleaved system is built from the same predicates.
- **nftables** (`nftables.dfy`, `nftload.dfy`). The renderer as a compiler from zone rules to device rules, with a
  first-match packet semantics on both sides, and the exact condition for the file to load.
- **Validation** (`validate.dfy`, `ipnet.dfy`, `iptext.dfy`, `bytes.dfy`). Each validator against a declarative
  statement of well-formedness, over IPv4 and IPv6 texts that are parsed and printed as Go's `netip` does.
- **Apply** (`apply.dfy`, `vlan.dfy`, `lock.dfy`). The pipeline over a file map, VLAN reconciliation over a link
  table, and the lock as steps of processes over inodes.
- **Revisions** (`revision.dfy`, `rollback.dfy`). The store with every intermediate state recorded, and rollback.

`text.dfy` and `config.dfy` hold what the others share. `dafny verify dfyconfig.toml` checks everything.

Failing operations are nondeterministic choices. Where a guarantee depends on some of them working, a ghost counter
of failures says so (`FRR.log`, `FileSystem.lost`, `Host.failures`, `Store.faults`).

## Where the code and its documentation differ

- Without a firewall section the comment at internal/services/nftables/nftables.go:144 promises LAN to WAN; the code
  accepts everything that comes in on a LAN device. `NFTables.DefaultForwardVersusComment` says for which packets the
  two agree.
- Validation lets through configurations whose rendered file nft refuses: actions are validated without regard to case
  but rendered verbatim, and protocols, ports and addresses of rules are not validated at all.
  `NFTLoading.LoadsExactlyWhen` says which configurations load.
- The comment at cmd/warp/main.go:367 takes the initial routes to be in FRR already. After a restart that need not be
  so, since an earlier monitor may have withdrawn some; nothing puts them back until their uplink next goes down and
  up (`FailoverSystem.RestartMissesRoute`, `FailoverSystem.FRRFollowsMemory`).
- doc/WARP_ROUTER_DECISIONS.md (LL-013) presents revision ids as collision-safe. Saving is; fetching accepts only
  two-digit suffixes, so from the 101st revision of a second on `Get` refuses the id
  (`Revision.SavedIsRetrieved`, `Revision.BurstRetrieved`).
- A deactivation that FRR refuses is not retried while the uplink stays down, and no replace on behalf of another
  uplink removes its route (`FailoverSystem.RefusedDownIsStuck`): only a later accepted Down of that uplink does, for
  which it has to probe well in between (`FailoverSystem.RouteChangesByOwnDelivery`).
- Two policy rules of one name pass validation, but the controller keeps the last usable one only
  (`Startup.RulesTrackedExactlyWhen`). Any accepted configuration with a usable rule can be extended so that the rule
  is dropped and the configuration still accepted (`Startup.AcceptedDropsRule`); `Startup.AcceptedSiteDropsRule` is
  such a site.
- Restoring is best effort: when writing an original back fails, its backup is removed all the same and the original
  is gone (`Apply.RestoreKeepsExactlyWhen`, `Apply.RestoreCanLose`).
- The apply lock removes its file on release, so two processes can hold it; `Lock.LockBreaksExactlyWhen` says exactly
  in which runs, and `Lock.RemovalIsHarmfulExactlyWhen` after which removals.

## Model

| member | source | states |
|---|---|---|
| `FailoverSystem.RoutesAreActiveUplinks` | internal/failover/controller.go:189-201 | In every state of every interleaved run, whatever commands are refused and whatever FRR held at the start, the manager's memory is the keys of the active uplinks; FRR's table is that set iff each route agreed at the start or had a command accepted since |
| `FailoverSystem.FRRFollowsMemory` | internal/failover/vtysh.go:38-68 | FRR and the memory agree on a route iff they agreed at the start or FRR has accepted a command on it; until then FRR's entry is the one it started with |
| `FailoverSystem.RouteChangesByOwnDelivery` | internal/failover/controller.go:109-201 | With distinct uplink devices, a route leaves FRR only by its own uplink's accepted Down and enters only by its accepted Healthy |
| `FailoverSystem.RestartMissesRoute` | cmd/warp/main.go:338-375 | A concrete run from an FRR that lacks an uplink's route: the uplink probes healthy and the route stays absent, no command being issued |
| `FailoverSystem.RouteFollowsProbes` | internal/failover/controller.go:109-201 | For an uplink with nothing in flight, "route absent iff its last threshold probes all failed" holds iff its latest Down or Healthy callback was refused exactly when FRR and memory disagree on the route; with agreement at the start, iff it was not refused |
| `FailoverSystem.RefusedMeans` | internal/failover/controller.go:139-187 | An uplink counts as refused exactly when its latest Down or Healthy delivery failed, read off the run |
| `FailoverSystem.FailureFreeRoutes` | internal/failover/controller.go:109-201 | Without refusals the installed routes are exactly those of the uplinks whose last delivered status is not Down, empty only when all are Down; FRR holds the same if it did at the start |
| `FailoverSystem.OneCommandPerEvent` | internal/failover/vtysh.go:47-65 | Each delivered event issues at most one command, and a change of the table is one accepted command |
| `FailoverSystem.Reachable` | internal/health/probe.go:173-223 | The four views (history, prober, in flight and delivered, control) fit together in every reachable state |
| `FailoverSystem.Confluence` | internal/failover/controller.go:109-201 | Two runs with the same events per uplink end with the same active set and memory, however interleaved, with distinct uplink devices also with the same policy rules, and with the same FRR table when both began in agreement, or with one table and distinct devices |
| `FailoverSystem.AcceptedIsFlip` | internal/failover/controller.go:139-187 | A command on an uplink's route is accepted exactly when that uplink is switched |
| `FailoverSystem.PolicyFollowsExactlyWhen` | internal/failover/controller.go:139-187 | Along any run the rules are always those of devices with no inactive uplink iff no delivery revives an uplink sharing a rule's device with an inactive one |
| `FailoverSystem.PolicyFollowsActiveUplinks` | internal/failover/controller.go:122-187 | With distinct uplink devices that holds in every state of every run, whatever is refused |
| `Startup.PolicyRulesFollowConfig` | internal/failover/controller.go:87-187 | Along every run of an accepted configuration, whatever is refused, the rule present under a name is the last usable one as configured, and it is present exactly while its uplink is active (always, if its interface is no uplink) |
| `FailoverSystem.LocalRunTracks` | internal/health/probe.go:173-223 | Each uplink's part of any run is a function of its own events alone |
| `FailoverSystem.RefusedDownIsStuck` | internal/failover/controller.go:139-162 | A refused deactivation is never retried: no later failing probe of that uplink, and nothing the others do, changes its route in memory or in FRR |
| `FailoverSystem.RefusalIsPossible` | internal/failover/controller.go:139-162 | A concrete run that reaches that state |
| `FailoverSystem.DeliverKeepsInvariant` | internal/failover/controller.go:109-187 | One delivery, accepted or refused, keeps all four views consistent |
| `Failover.HandledKeepsTrack` | internal/failover/controller.go:139-201 | One event keeps the memory the keys of the active uplinks, with at most one command, on its own route; a failed one changes no route and puts the flag back |
| `Failover.HandledKeepsAgreement` | internal/failover/vtysh.go:38-68 | After an event FRR and memory agree on a route iff they did before or FRR just accepted a command on it |
| `Failover.CommandIsSwitch` | internal/failover/controller.go:139-187 | With distinct devices, a command on a route is accepted iff its own uplink is switched |
| `Failover.WantedAfterSwitch` | internal/failover/controller.go:189-201 | Switching one uplink changes the wanted set by at most its own key |
| `Failover.InitialInstallStartsPolicy` | internal/failover/controller.go:122-137 | A successful initial install leaves exactly the rules of devices with no inactive uplink |
| `Failover.FailedInstallAddsNoRule` | internal/failover/controller.go:122-137 | A failed one adds no rule, and ends with a refused command |
| `Failover.PolicyKeptExactlyWhen` | internal/failover/controller.go:139-187 | An event keeps "a rule is present iff its device is not that of an inactive uplink" if and only if it does not bring back an uplink sharing a rule's device with an inactive one |
| `Failover.HandledKeepsPolicy` | internal/failover/controller.go:139-187 | With the distinct devices validation guarantees, every event keeps it |
| `Failover.UplinkIndexOf` | internal/failover/controller.go:64-80 | The controller tracks exactly the WAN interfaces with a gateway, each under its own name |
| `Failover.UplinkIndexIsLast` | internal/failover/controller.go:71-80 | Of several uplinks of one name the last one counts |
| `Failover.BuildUplinkIndex` | internal/failover/controller.go:71-80 | The constructor's loop computes that index, all uplinks active |
| `Failover.BuildPolicyIndex` | internal/failover/controller.go:82-103 | The loop tracks exactly the last usable rule of each name; with distinct names that rule carries the configured priority, the block of its source, and the gateway and device of the interface it names |
| `Failover.PolicyIndexMeaning` | internal/failover/controller.go:82-103 | The index holds exactly the last usable rule of each name; unusable are rules with an unknown interface, no gateway or a bad source |
| `Failover.TrackedRuleIs` | internal/failover/controller.go:87-103 | The rule tracked under a name has the priority and source of the last usable rule of that name, and the gateway and device of its interface |
| `Failover.OnlyLastUsable` | internal/failover/controller.go:87-103 | No other rule is tracked |
| `Failover.EveryRuleTrackedExactlyWhen` | internal/failover/controller.go:87-103 | Of any list of rules, every usable one is tracked iff no two usable ones of one name differ |
| `Startup.RulesTrackedExactlyWhen` | internal/failover/controller.go:82-103 | Every usable policy rule is in the table the controller builds iff no two usable rules of one name differ |
| `Startup.AcceptedDropsRule` | internal/config/validate.go:250-275 | Any accepted configuration with a usable policy rule stays accepted when a rule of the same name and interface with a free priority and any valid source is added, and the controller then no longer tracks the first |
| `Startup.AcceptedSiteDropsRule` | internal/config/validate.go:250-275 | A small accepted site, for every gateway address and source block, with two such rules |
| `Failover.Controller.constructor` | internal/failover/controller.go:60-106 | Starts with every uplink active, from the uplink index and the policy rules as configured |
| `Failover.Controller.HandleStateChange` | internal/failover/controller.go:109-119 | Down deactivates, Healthy activates, other statuses change nothing; the whole new state for every outcome of the commands |
| `Failover.Controller.InstallInitialRoutes` | internal/failover/controller.go:122-137 | One replace with all active uplinks; rules are added only if it succeeded |
| `Failover.Controller.DeactivateUplink` | internal/failover/controller.go:139-162 | Early return when inactive; flag put back and rules kept on failure; rules of its device deleted on success |
| `Failover.Controller.ActivateUplink` | internal/failover/controller.go:164-187 | The mirror image, adding the rules of its device |
| `Failover.Controller.UpdateECMP` | internal/failover/controller.go:189-201 | Replaces the routes by the keys of the active uplinks, in any iteration order |
| `Failover.Controller.ActiveUplinks` | internal/failover/controller.go:204-214 | Exactly the names flagged active |
| `Routes.VtyshRouteManager.ReplaceECMPRoute` | internal/failover/vtysh.go:38-68 | For every iteration order and every refusal: removals before additions, each difference at most once, stop at the first failure; memory and FRR table both change by exactly the accepted commands |
| `Routes.VtyshRouteManager.constructor` | internal/failover/vtysh.go:26-34 | The memory starts as the keys of the initial routes |
| `Routes.VtyshRouteManager.RemoveUndesired` | internal/failover/vtysh.go:47-55 | First loop: removes what is installed but not desired, memory updated after each accepted command only |
| `Routes.VtyshRouteManager.AddMissing` | internal/failover/vtysh.go:57-65 | Second loop: adds what is desired but not installed |
| `Routes.ReplaceSuccess` | internal/failover/vtysh.go:38-68 | On success the table is the desired set, and the commands are exactly the symmetric difference, each once |
| `Routes.ReplaceBetween` | internal/failover/vtysh.go:38-68 | In every case the table ends between the intersection and the union of installed and desired |
| `Routes.ReplaceSmallDifference` | internal/failover/vtysh.go:38-68 | With at most one differing key: no command when equal, else one, and its failure changes nothing |
| `Routes.SuccessRepairs` | internal/failover/vtysh.go:38-68 | After any series of calls, failed or not, one successful call leaves exactly its desired routes |
| `Routes.ConfigLineInjective` | internal/failover/vtysh.go:96-108 | Different commands are different vtysh lines |
| `Routes.RemoveIsNo` | internal/failover/vtysh.go:47-65 | The removing line is "no" before the adding line |
| `Routes.NhKeyInjective` | internal/failover/vtysh.go:110-112 | Different nexthops have different keys |
| `Health.FoldMeaning` | internal/health/probe.go:173-223 | The fail counter is the length of the longest failing suffix, the totals count probes and failures in order, and the status is the stated function of them |
| `Health.DownMeansLastAllFailed` | internal/health/probe.go:195-206 | Down if and only if the last threshold probes all failed |
| `Health.TransitionsChain` | internal/health/probe.go:208-222 | Reported transitions are legal (Down leads only to Healthy), chain from Unknown and end at the current status |
| `Health.ObserveIsLegal` | internal/health/probe.go:187-206 | One probe never moves Down to Degraded nor back to Unknown |
| `Health.Prober.Start` | internal/health/probe.go:83-99 | A fresh initial state per configured uplink, with its name and target |
| `Health.Prober.DoPing` | internal/health/probe.go:173-223 | One probe updates only its own uplink, by the state machine, and hands back the status change to deliver |
| `Health.Prober.ProbeLoop` | internal/health/probe.go:146-171 | A loop over any outcomes is the fold of those outcomes, under the effective threshold |
| `Health.Prober.HealthyUplinks` | internal/health/probe.go:134-144 | Exactly the uplinks whose status is Healthy |
| `Health.EffectiveThreshold` | internal/health/probe.go:156-158 | The threshold in force is never below one |
| `Health.DefaultIsThree` | internal/health/probe.go:156-158 | Without a threshold of its own an uplink is Down iff its last three probes failed |
| `Health.Effective` | internal/health/probe.go:150-158 | Settings of at least one are kept; the defaults are one second, two seconds and three failures |
| `Startup.SelectionsAgree` | cmd/warp/main.go:299-331 | For every accepted configuration the routes FRR loaded, the monitor's initial routes and the controller's first wanted set are the same keys, for IPv4 and IPv6 gateways; FRR is assumed to take every rendered line, also the IPv4 default route with an IPv6 gateway |
| `Startup.RenderDefaultRoutes` | internal/services/frr/frr.go:115-145 | ECMP branch iff enabled and more than one WAN; either branch renders one default-route line per uplink |
| `Startup.CollectWANs` | internal/services/frr/frr.go:115-121 | The WAN interfaces, in order |
| `Startup.MonitorTargets` | cmd/warp/main.go:299-331 | Probe list and initial routes of exactly the WAN interfaces with a gateway, with their targets, times and thresholds |
| `Startup.ProbeMeaning` | cmd/warp/main.go:299-331 | Each field of an uplink's probe: the configured target or else the gateway, and interval, timeout and threshold as configured or by default |
| `Startup.TargetOfUplink` | internal/health/probe.go:83-99 | With distinct names each uplink is probed at its own target |
| `Startup.UplinkLineDenotes` | internal/services/frr/frr.go:115-145 | The line rendered for an uplink denotes the manager's key of that uplink and no other |
| `Startup.UplinkLineIsKey` | internal/services/frr/frr.go:115-145 | The rendered line is the very text of the command that adds the route iff the gateway is written in canonical form, as every dotted one is |
| `Startup.LoadedKeys` | internal/services/frr/frr.go:115-145 | FRR's table is what it loaded from the rendered lines iff it is the set of uplink keys |
| `Startup.StartMonitor` | cmd/warp/main.go:277-375 | On an accepted configuration the initial install issues no command and leaves FRR alone, whatever it holds; FRR and controller agree iff FRR still holds the rendered routes; the prober has one initial state per uplink, with the target configured for it |
| `Startup.StartController` | cmd/warp/main.go:338-375 | The manager, the controller and the first install, without any command, and when FRR agrees |
| `Startup.StartIsInitial` | cmd/warp/main.go:338-375 | The state StartMonitor leaves begins the runs of the plan the configuration determines, with the configured thresholds or three, and distinct uplink devices |
| `Startup.ThresholdIndexMeaning` | cmd/warp/main.go:299-331 | Every uplink has a threshold of at least one, the effective one of its own probe |
| `Startup.AcceptedUplinksDistinct` | internal/config/validate.go:53-59 | Accepted configurations have distinct uplink devices |
| `IPNet.OverlapTestsAreExact` | internal/config/validate.go:117-127 | For CIDR blocks of either family, "one contains the other's network address" holds iff they share an address (section 3.1 of RFC 4632) |
| `IPNet.ParsedIsCIDR` | internal/config/validate.go:103-116 | Every block that parses is such a block, network numbers in IPv4 disguise included |
| `IPNet.ContainsIsInterval` | internal/config/validate.go:117-127 | The byte-wise mask test is membership in an aligned interval of the size the prefix length says |
| `IPNet.BlockOfText` | internal/config/validate.go:113-122 | The block of any text holds exactly the addresses that agree with the address in the text on as many leading bits as the prefix length says; an IPv4 address in disguise counts as IPv4 if the prefix covers the disguise, and as IPv6 otherwise |
| `IPNet.PrintedBlock` | internal/config/validate.go:113-122 | In numbers, for every address and prefix length as they are written; the block contains the address |
| `IPNet.DisguisedBlockText` | internal/config/validate.go:113-122 | ::ffff:a.b.c.d/n is the block of a.b.c.d/(n-96) for n from 96 |
| `IPNet.BlocksShareExactlyWhen` | internal/config/validate.go:117-127 | Two blocks pass the overlap test iff their addresses agree on as many leading bits as the shorter prefix counts |
| `IPNet.ContainsLoop` | internal/config/validate.go:117-127 | The loop of the mask test computes it |
| `IPNet.BlockIsConvex` | internal/config/validate.go:149-167 | A block contains everything of their kind numerically between two of its members, for every prefix length |
| `IPNet.ParseFormat` | internal/failover/vtysh.go:110-112 | Parsing a printed address gives it back |
| `IPNet.DottedMeaning` | internal/config/validate.go:143-165 | Four decimal numbers between dots are the bytes of an IPv4 address from left to right |
| `IPNet.GroupsMeaning` | internal/config/validate.go:143-165 | Hexadecimal groups around "::" are the IPv6 address whose number the groups and zeros spell |
| `IPNet.EightGroupsMeaning` | internal/config/validate.go:143-165 | So are eight groups |
| `IPNet.DisguisedText` | internal/config/validate.go:143-165 | ::ffff:a.b.c.d is read as a.b.c.d |
| `IPNet.CapitalsParseAlike` | internal/config/validate.go:143-165 | Capitals make no difference to any text, valid or not |
| `IPNet.ParsePrinted` | internal/config/validate.go:103-116 | A printed address, followed by a slash and a prefix length that fits it, is read back as that address and length |
| `IPNet.DottedIsCanonical` | cmd/warp/main.go:318-331 | Printing a parsed dotted address gives the text back |
| `IPNet.CapitalsAreNotCanonical` | cmd/warp/main.go:318-331 | An IPv6 text with capitals is printed otherwise |
| `IPText.ParseFormatV6` | internal/failover/vtysh.go:110-112 | Parsing the printed form of eight groups gives them back |
| `IPText.PrintedForm` | internal/failover/vtysh.go:110-112 | "::" stands for the first longest run of two or more zero groups, if there is one (section 4.2 of RFC 5952) |
| `Validate.InterfacesSoundAndComplete` | internal/config/validate.go:35-101 | No errors iff both roles occur, names and devices are pairwise distinct and the field checks hold |
| `Validate.ValidateInterfaces` | internal/config/validate.go:35-101 | The seen-map loops list exactly the issues of the list |
| `Validate.OverlapCheckIsExact` | internal/config/validate.go:103-130 | No pair reported iff the static subnets are pairwise disjoint address sets |
| `Validate.ValidateSubnetOverlaps` | internal/config/validate.go:103-130 | The double loop reports a pair iff its two static networks pass the overlap test |
| `Validate.StaticSiteAcceptedExactlyWhen` | internal/config/validate.go:103-130 | A site with two static LANs is accepted iff their addresses differ in the leading bits that the shorter prefix counts, or in family |
| `Validate.ValidateDHCP` | internal/config/validate.go:132-182 | Lists exactly the issues of each subnet, and none when DHCP is off |
| `Validate.AcceptedPoolIsInside` | internal/config/validate.go:139-167 | Every address numerically between the bounds of an accepted pool lies in its subnet |
| `Validate.AcceptedBounds` | internal/config/validate.go:139-167 | Both bounds of an accepted pool parse and lie inside |
| `Validate.OutsideExactlyWhen` | internal/config/validate.go:143-165 | A pool bound is reported as outside iff it differs from the subnet's address on the leading bits of the prefix, or in family |
| `Validate.AcceptedBoundsLead` | internal/config/validate.go:143-165 | So both bounds of an accepted pool have the subnet's leading bits |
| `Validate.SubnetSoundAndComplete` | internal/config/validate.go:132-182 | No issue iff subnet, bounds, gateway and servers parse, the subnet contains the bounds and the interface exists |
| `Validate.ValidateFirewall` | internal/config/validate.go:202-248 | Lists exactly the firewall issues |
| `Validate.FirewallSoundAndComplete` | internal/config/validate.go:202-248 | No issue iff every zone is named, every reference resolves and every action is valid |
| `Validate.ActionMeaning` | internal/config/validate.go:285-291 | Valid actions are "accept" and "drop" in any mixture of capitals and small letters |
| `Validate.ValidatePBR` | internal/config/validate.go:250-275 | Lists exactly the policy-routing issues |
| `Validate.PBRSoundAndComplete` | internal/config/validate.go:250-275 | No issue iff priorities are pairwise distinct and names, references and sources are valid |
| `Validate.ValidateDNS` | internal/config/validate.go:184-200 | Lists exactly the DNS issues, and none when DNS is off |
| `Validate.DNSSoundAndComplete` | internal/config/validate.go:184-200 | No issue iff DNS is off or every forwarder is an address and every client range a block |
| `Validate.Validate` | internal/config/validate.go:10-22 | Accepts exactly the configurations that meet all of the above |
| `Validate.SmallSiteAccepted` | internal/config/validate.go:10-22 | An uplink and two LANs on DHCP are accepted, with any well-formed firewall |
| `Validate.SmallSiteExists` | internal/config/validate.go:10-22 | There is such a site for every gateway address of the uplink |
| `NFTables.ForwardPreserved` | internal/services/nftables/nftables.go:106-133 | First match over the rendered forward chain gives every packet the verdict of the zone-level rules, for every reading of port and address texts |
| `NFTables.InputPreserved` | internal/services/nftables/nftables.go:135-142 | The same for the input chain, fixed rules and default drop included |
| `NFTables.PreludeWins` | internal/services/nftables/nftables.go:18-53 | No custom input rules change the verdict of a packet the fixed rules take; all others are decided by the custom rules |
| `NFTables.PreludeTakes` | internal/services/nftables/nftables.go:18-53 | The fixed rules accept exactly the listed traffic |
| `NFTables.EstablishedWins` | internal/services/nftables/nftables.go:55-68 | Established traffic is forwarded whatever the rules |
| `NFTables.ZoneTableMeaning` | internal/services/nftables/nftables.go:106-120 | The devices listed for a zone are exactly those of its members |
| `NFTables.ForwardBlockMeaning` | internal/services/nftables/nftables.go:122-133 | The nested device loops of one rule act as the rule on the product of the two device sets |
| `NFTables.TrafficPartsMeaning` | internal/services/nftables/nftables.go:177-206 | The emitted parts match iff protocol, port and addresses do; a port without a protocol is ignored |
| `NFTables.BuildForwardRule` | internal/services/nftables/nftables.go:177-206 | The step-by-step appends give the device matches, then each optional part exactly when its field is set, under the rule's action; what that matches is `NFTables.TrafficPartsMeaning` |
| `NFTables.BuildInputRule` | internal/services/nftables/nftables.go:208-232 | The same for input rules, which have one device and no destination |
| `NFTables.BuildZones` | internal/services/nftables/nftables.go:106-120 | The zone loops fill the zone table |
| `NFTables.ExpandForward` | internal/services/nftables/nftables.go:122-133 | The rule and device loops append the whole forward chain |
| `NFTables.ExpandInput` | internal/services/nftables/nftables.go:135-142 | The rule and device loops append the whole input chain |
| `NFTables.Render` | internal/services/nftables/nftables.go:103-175 | The three lists of the ruleset, with and without a firewall section |
| `NFTables.MasqueradeIsWan` | internal/services/nftables/nftables.go:155-162 | Masquerading covers exactly the WAN devices |
| `NFTables.DefaultForward` | internal/services/nftables/nftables.go:143-153 | Without a firewall section, forwarded iff established or from a LAN device |
| `NFTables.DefaultForwardVersusComment` | internal/services/nftables/nftables.go:143-153 | That matches the comment's "LAN to WAN" for a packet iff it is established, not from a LAN, or to a WAN |
| `NFTables.LanToLanIsForwarded` | internal/services/nftables/nftables.go:143-153 | Between two LAN devices of any configuration with distinct devices it does not |
| `NFTables.AcceptedLanToLan` | internal/services/nftables/nftables.go:143-153 | Accepted configurations for which it does not |
| `NFTLoading.LoadsExactlyWhen` | internal/services/nftables/nftables.go:103-232 | The file loads iff nft takes, for every rule whose zones have devices, those devices, its protocol, port, addresses and comment, any port stands beside a protocol that has ports (for nft to say), its action is in lower case, and nft takes the WAN devices |
| `NFTLoading.DefaultLoadsExactlyWhen` | internal/services/nftables/nftables.go:143-162 | Without a firewall section: iff nft takes all devices and the LAN names |
| `NFTLoading.ForwardOneLoads` | internal/services/nftables/nftables.go:177-206 | One forward rule loads iff its devices, its set texts, its action and its comment do |
| `NFTLoading.AcceptedMayNotLoad` | internal/config/validate.go:285-291 | Whatever texts nft takes: any accepted configuration with a device in some zone stays accepted and stops loading when given an input rule there with an action in capitals or a port of a protocol without ports |
| `NFTLoading.AcceptedButNotLoaded` | internal/config/validate.go:202-248 | Accepted configurations that do not load: "ACCEPT", and, icmp having no ports, port 80 of icmp |
| `VLAN.Host.ProvisionVLANs` | internal/apply/apply.go:232-306 | Without failing commands it succeeds iff every VLAN has a parent in its name, and leaves the reconciled table, with every VLAN as configured, unless some link sits on a stale one; whatever fails, links neither named nor stale stay |
| `VLAN.Host.CollectDesired` | internal/apply/apply.go:233-249 | The two tables; of several entries for a device the last one counts |
| `VLAN.Host.RemoveStale` | internal/apply/apply.go:251-264 | In any order: deletes exactly the unnamed VLANs on known parents, errors ignored |
| `VLAN.Host.Ensure` | internal/apply/apply.go:266-303 | A missing device is created with its own parent and id and brought up; one that is there keeps them; then the one static address |
| `VLAN.Host.EnsureAll` | internal/apply/apply.go:266-303 | The loop, stopping at the first error |
| `VLAN.ReconciledMeaning` | internal/apply/apply.go:229-306 | In terms of the configuration: a missing VLAN is created with the parent in its name and its own id, up, with no address but its static one; one that was there keeps parent, id and state and gets its static address as its only one; any other link goes iff it sits on the parent of a configured VLAN, and otherwise is unchanged |
| `VLAN.NothingStaleLeft` | internal/apply/apply.go:251-264 | Nothing stale is left |
| `VLAN.ReconciledIsTarget` | internal/apply/apply.go:266-303 | The result is given link by link, independent of any order |
| `VLAN.OrderDoesNotMatter` | internal/apply/apply.go:232-306 | Permuting the entries changes nothing |
| `VLAN.SecondRunChangesNothing` | internal/apply/apply.go:232-306 | Reconciling is idempotent, and nothing sits on a stale link afterwards |
| `VLAN.ProvisionTwice` | internal/apply/apply.go:232-306 | Two calls in a row, when nothing fails: the second leaves the links as the first did |
| `VLAN.UnstackedIsFine` | internal/apply/apply.go:232-306 | Where no VLAN sits on a VLAN, no link sits on a stale one |
| `VLAN.OtherParentsUntouched` | internal/apply/apply.go:242-264 | Links on parents the configuration does not mention are kept |
| `VLAN.ExistingDeviceKeepsItsId` | internal/apply/apply.go:277-303 | An existing device keeps parent, VLAN id and state |
| `VLAN.ParentDeviceMeaning` | internal/apply/apply.go:332-337 | The parent is the text before the last dot; none iff no dot has text before it |
| `Apply.Pipeline.Execute` | internal/apply/apply.go:81-147 | Completed is exactly the prefix before the failed step; failure restores every original when no file operation fails, and in any case each original whose backup was there stands at its path or under its backup name, unless writing it back failed and its backup was removed; success leaves every rendered content and no backup; the new service calls are, in the order of the steps, sysctl and reload of every completed step that asks for them, each exactly once and with its own new file in place, then those of the failed step up to its failure, and nothing else; an error has its cause among the writes, calls or renderers; a VLAN failure touches no file, and otherwise the links are reconciled |
| `Apply.Pipeline.BackUpAll` | internal/apply/apply.go:91-98 | Each entry of the table holds the original content; with working backups it covers every existing path |
| `Apply.Pipeline.BackupFile` | internal/apply/apply.go:150-163 | Copies an existing file, and nothing else changes |
| `Apply.Pipeline.RunStep` | internal/apply/apply.go:100-138 | Render, write, sysctl, reload; which of them failed and why it could; only its own path changes |
| `Apply.Pipeline.RunAll` | internal/apply/apply.go:100-139 | The loop with all backups kept intact |
| `Apply.Pipeline.RunMade` | internal/apply/apply.go:118-138 | The calls of a run, attributed to steps: every completed step has made its sysctl and reload once each, in order, and a failing one those up to its failure |
| `Apply.StepMade` | internal/apply/apply.go:118-136 | The same for one step, completed or failed for any cause |
| `Apply.DefaultCalls` | internal/apply/apply.go:58-69 | A completed default run applies sysctl and reloads frr, nftables, kea-dhcp4-server and unbound, in this order, each with its own content in place |
| `Apply.Pipeline.RestoreBackups` | internal/apply/apply.go:166-175 | In any order: path and backup of every entry end as the restore of that entry alone leaves them, for every outcome of its read, write and removal; when nothing fails, with the original content and without the backup |
| `Apply.RestoreKeepsExactlyWhen` | internal/apply/apply.go:166-175 | After one restore, whatever fails, the original stands at its path or under its backup name iff the read failed, the write worked, the removal failed, or the path holds the original even so |
| `Apply.RestoreCanLose` | internal/apply/apply.go:171-173 | A torn write followed by a working removal loses any original that is not empty |
| `Apply.OriginalsStand` | internal/apply/apply.go:166-175 | After the whole restore, an original whose own restore kept it stands, whatever happened to the others |
| `Apply.Pipeline.RemoveBackups` | internal/apply/apply.go:141-144 | The backups go, nothing else |
| `Apply.FileSystem.AtomicWrite` | internal/apply/apply.go:178-218 | The path holds the content, or every file is as it was |
| `Apply.RestoredOriginals` | internal/apply/apply.go:166-175 | Restoring from a covering table brings every original back |
| `Apply.RestoreStep` | internal/apply/apply.go:166-175 | One restoring turn, whatever its outcome, disturbs no other path or backup |
| `Apply.StepStaysUnderway` | internal/apply/apply.go:100-138 | Writing a configuration path disturbs no backup, no other file and no earlier step |
| `Apply.DefaultPathsAreSafe` | internal/apply/apply.go:58-69 | The default paths are distinct and no backup names of one another |
| `Revision.Store.Save` | internal/revision/store.go:41-95 | First free id; on success exactly the new revision and `current`; at every intermediate state, failures included, old revisions unchanged and `current` nothing or fully written |
| `Revision.Store.FreshId` | internal/revision/store.go:46-55 | The id loop ends, at the first free candidate |
| `Revision.Store.WriteRevision` | internal/revision/store.go:60-85 | Directory, configuration, metadata, in this order, safe at every point |
| `Revision.Store.PointCurrentAt` | internal/revision/store.go:87-92 | Replacing the link never names anything but the old or the new revision |
| `Revision.Pigeonhole` | internal/revision/store.go:46-55 | No more candidates can be taken than there are directories |
| `Revision.CandidatesDiffer` | internal/revision/store.go:54-54 | Candidate ids are pairwise distinct |
| `Revision.PatternAcceptsFirstHundred` | internal/revision/store.go:132-136 | The id pattern accepts a candidate iff its index is at most 99 |
| `Revision.PatternMeaning` | internal/revision/store.go:132-136 | The pattern accepts stamps, and stamps with a dash and a number below one hundred in two digits, and nothing else |
| `Revision.SavedIsRetrieved` | internal/revision/store.go:133-165 | A saved revision is retrieved iff one of the first hundred ids of its second was free |
| `Revision.BurstIsSaves` | internal/revision/store.go:46-55 | From an empty store, save n + 1 of a second finds the first n candidates taken and takes the next |
| `Revision.BurstRetrieved` | internal/revision/store.go:132-165 | So the last of n saves in one second is retrieved iff n is at most 100 |
| `Revision.Store.Get` | internal/revision/store.go:133-165 | Pattern, directory, metadata and content checks |
| `Revision.Store.List` | internal/revision/store.go:98-130 | Newest first; exactly the parsable entries when nothing fails; distinct ids |
| `Revision.SortNewestFirst` | internal/revision/store.go:124-127 | A sorted permutation |
| `Revision.Store.Current` | internal/revision/store.go:168-175 | In a store that only Save has written it names nothing or a fully written revision, which Get reads iff the id has the pattern |
| `Revision.Store.Previous` | internal/revision/store.go:178-191 | The entry after the current one in the listing |
| `Revision.NextAfterMeaning` | internal/revision/store.go:178-191 | In a listing of distinct ids that is the entry after `current` wherever it stands, and none when it is last or missing |
| `Revision.SaveExtendsHistory` | internal/revision/store.go:41-95 | A save appends to the represented history |
| `Revision.SavesAreHistory` | internal/revision/store.go:41-95 | From an empty store, any saves under different ids and a strictly increasing clock are the history the store represents |
| `Revision.ListingOfHistory` | internal/revision/store.go:98-130 | With a strictly increasing clock the listing is the reverse of save order, `current` its head and Previous its second entry |
| `Revision.PreviousOfHistory` | internal/revision/store.go:178-191 | Previous names the second newest revision, which Get reads iff its id has the pattern |
| `Revision.SortedIsReversed` | internal/revision/store.go:124-127 | A newest-first listing of an increasing history is that history backwards |
| `Rollback.RollbacksAlternate` | cmd/warp/main.go:149-201 | The same of any run of rollbacks; all older revisions remain |
| `Rollback.Machine.Rollback` | cmd/warp/main.go:149-201 | Nothing saved unless applied, nothing applied unless read, parsed and locked; the exact conditions of the first errors; NotApplied iff the pipeline named a failed step; when nothing fails and the previous revision can be read, parsed, rendered and locked for, it is applied and appended to the history under an id of the given second |
| `Rollback.Machine.ApplyContent` | cmd/warp/main.go:178-191 | When every step renders, every VLAN has a parent and nothing fails, applying succeeds; without a failed step every path holds its rendered content |
| `Rollback.Machine.RollbackRepeatedly` | cmd/warp/main.go:149-201 | Repeated calls of the command: when nothing fails they all succeed, and after n of them the current content is the original one for even n and the one before it for odd n |
| `Lock.HarmlessRunsExclude` | internal/apply/apply.go:341-359 | When every removal of the file happens while no other process uses it, at most one process holds the lock, in every run |
| `Lock.LockWorks` | internal/apply/apply.go:341-359 | From the start, when nobody has the file open, either condition suffices |
| `Lock.AcquireExactlyWhen` | internal/apply/apply.go:341-351 | Acquiring succeeds iff no process holds the lock, and otherwise leaves nothing behind |
| `Lock.ReleaseLetsIn` | internal/apply/apply.go:352-358 | After a holder unlocks, closes or exits the next process gets the lock |
| `Lock.RemovalIsHarmfulExactlyWhen` | internal/apply/apply.go:352-356 | A removal opens the way to two holders iff another process then has the file open before flock or holds it |
| `Lock.LockBreaksExactlyWhen` | internal/apply/apply.go:341-359 | Along a run from the start, two holders are within reach at no point (without further removals) iff every removal happens while no other process has the file open before flock or holds it |
| `Lock.NonOverlappingIsHarmless` | internal/apply/apply.go:341-359 | Runs in which no open-to-flock window overlaps another process's cleanup are among those |
| `Lock.NonOverlappingRunsExclude` | internal/apply/apply.go:341-359 | When no open-to-flock window overlaps another process's cleanup, at most one holds, in every run |
| `Lock.HarmlessStepsKeepSound` | internal/apply/apply.go:341-359 | Each step keeps: files in use are the named one, an inode is locked once |
| `Lock.OverlapBreaksTheLock` | internal/apply/apply.go:341-359 | A concrete overlapping run after which two processes can hold |
| `Config.IndexByName` | internal/services/nftables/nftables.go:108-111 | The name table: last entry per name |
| `Config.LastNamedIsOnly` | internal/failover/controller.go:64-70 | With distinct names it finds the only entry |

## Left out

- Health.Prober.DoPing: int64 counters are unbounded here; overflow would need 2^63 probes of one uplink.
- Failover.Controller.HandleStateChange: one callback is one step, because the controller holds its mutex throughout; the update in place and the revert inside that step are in the method.
- Routes.VtyshRouteManager.ReplaceECMPRoute: a refused command is taken to have no effect on FRR; policy rules reach the vtysh manager as calls it ignores, so rules are stated about a manager that carries them out.
- Validate.ValidateInterfaces: which issues occur is stated, not their order or how often one is listed; the same goes for the other validators.
- Validate.AcceptedPoolIsInside: the code does not check that the pool start is at most the end, and neither does the model.
- NFTables.ForwardPreserved: packets are IPv4; what a configured protocol, port or address text matches is a parameter.
- NFTLoading.LoadsExactlyWhen: which single texts nft takes at their place and which protocol texts have ports are parameters, so a text that breaks out of its place is not modelled.
- NFTables.Render: rules are structured values; the layout of the file is not modelled.
- VLAN.Host.ProvisionVLANs: what `ip` prints is not parsed; deleting a link takes those directly on it along, and the exact result is stated for tables in which nothing sits on a stale link.
- VLAN.ReconciledMeaning: cleanup on a parent the configuration no longer mentions, correction of a wrong VLAN id and bringing an existing device up are things the code does not do.
- Apply.Pipeline.Execute: a path whose backup could not be made is overwritten without one and cannot be restored, and a failed run does not remove files it created, does not undo VLAN changes and does not reload services with the restored content, as in the code.
- Apply.DefaultPathsAreSafe: the sysctl, Kea and Unbound renderers are parameters of the pipeline; they copy fields.
- Revision.Store.Save: SHA-256, JSON and the text of the time are not modelled; the stamp is a parameter of the right shape, and looking for a directory cannot fail for other reasons than absence.
- Revision.ListingOfHistory: the order of revisions with equal timestamps is not determined, as in the code.
- Rollback.Machine.Rollback: YAML parsing is a parameter, and whether the lock can be had is an input; the lock itself is the subject of `lock.dfy`. `warp apply` puts the same pieces together, with the validator in front, and is not modelled as a command of its own.
- Startup.LoadedKeys: FRR is taken to tell routes apart by gateway address and device, and to accept every rendered line.
- The `ping` and ICMP probes themselves, systemctl, sysctl and vtysh processes, and internal/failover/netlink.go: outside calls, modelled as steps that may fail or left out.
- The priority order of policy rules in the rendered FRR file, which follows the order of the configuration.
- Command-line output, packaging, shell scripts and the Proxmox integration environment.
