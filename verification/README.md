# Contiv/VPP policy rendering and address allocation in Dafny

This project models five parts of Contiv/VPP and proves what they promise.

1. **Policies to rules** (`Policies`, `RuleIDs`, `Configurator`, `ConfiguratorMeaning`, `DirectionMeaning`,
   `DashlessNames`, `BlockCoverage`, `ExactMeaning`, `ConfiguratorTxn`, with the prefix arithmetic in `Net` and the rules
   in `Rules`). The policy configurator turns network policies into ordered lists of Contiv rules. What a list means by
   first-match evaluation is proved for all policies, by the fields of the policies alone, and it is the documented
   meaning, for every packet, if and only if for every port the networks of the policies and those of the rules that the
   code keeps lie in each other.
2. **Rules to session tables** (`SessionRules`, `CombinedRules`, `CombinedIDs`, `CombinedDecisions`, `Conversion`,
   `TableSpec`, `TableLookup`, `TableDecisions`, `SessionCache`, `VppTcpRenderer`, `Pipeline`, `InstalledDecisions`). The
   VPPTCP renderer combines the rule lists of pods on one host, converts them into session rules, keeps sorted tables, and
   sends the differences to VPP in batches. The tables are proved to be independent of any iteration order and to be what
   VPP holds after every sequence of transactions. With the rules it holds, whose numbers are read as VPP reads them, VPP
   never permits a connection from a pod that the policies, as the code reads their blocks, deny, nor one to a pod that no
   rule of the other address family reaches. The exact condition under which it permits what the policies allow is proved.
3. **Rules to ACLs** (`VppAcl`, `AclMeaning`, `AclLists`, `AclRuleLists`, `AclCache`, `AclTxn`, `AclRenderer`, `AclResync`,
   `AclRuns`, `AclCommit`). The ACL renderer shares rule lists between interfaces, in a sorted array with two indexes and
   copy-on-write transactions. The objects are proved to refine a plain map from interfaces to rules, and VPP to bind
   every interface to exactly the ACL that was rendered last for it, after every sequence of transactions and resyncs,
   from an empty VPP or from any table that a resync recognises. Read by its own fields, that ACL decides every packet
   that enters or leaves by the interface as the first match of the rules does.
4. **Node IDs and pod addresses** (`NodeIDs`, `NodeIDAllocator`, `Ipam`, `PodAddresses`). Nodes agree on IDs by
   put-if-absent, and each derives its pod network from its ID. IDs are unique under every interleaving, unless a deletion
   takes effect that its node believes to have failed. Pods on different nodes never use the same address, however often
   the agents crash, as long as no agent returns the ID of its node while pods are still there.
5. **Delayed resync** (`DelayedResync`). The policy plugin holds back a resync and the changes after it. Changes are never
   repeated or reordered, and none is lost as long as no error occurs before it.

Code that updates objects or variables step by step is written as classes and methods whose contracts equate the new
state with a function of the old one; the properties are proved about those functions. `Base` holds shared vocabulary.

How the parts fit together: `Configurator.GenerateRules` is proved equal to `Generated`, whose meaning is
`ConfiguratorMeaning.GeneratedMeaning` and, without the vocabulary of the code, `DirectionMeaning.GeneratedByFields`;
`CombinedRules.GetCombinedIngressRules`, `Conversion.ConvertIngressRules` and
`SessionCache.BuildLocal` are proved to build the unique table described by `TableSpec`; `Pipeline` composes these into
statements that lead from policies to table lookups, for what `ConfiguratorTxn.Commit` hands out
(`Pipeline.CommittedConfig`), and `InstalledDecisions` into what VPP decides. `AclRuleLists.ContivRuleLists` is proved against the values of
`AclLists`; `AclCommit.Renderer.Commit` implements exactly one step of the state machine of `AclRuns`.
`NodeIDAllocator.IdAllocator.GetID` consists of steps of `NodeIDs`, and `PodAddresses` composes them with `Ipam`.

## Where the code departs from what it promises

- **Rule IDs.** A rule is dropped if one with the same ID is in the list, and the IDs join names with a dash that also
  occurs in names (`IDsCollide`). The rule of a second policy for a different pod can be lost that way
  (`CollidingRuleLost`). Lost rules never make a list permit more (`IntendedNeverMore`), and none is lost if the names of
  the policies contain no dashes (`DashlessTold`).
- **IP blocks.** The loop over the blocks of a match keeps pointers into its loop variable, which all iterations share
  in the Go version of the repository (1.9). A block that no exception splits is therefore read as the last block of the
  match, without the exceptions of that one. `GeneratedMeaning` says what the rules mean, and
  `CoverageExactIff` when a match covers what it should, from which `KeptMeaning` follows; `OneMatchExactIff` shows that
  for a policy with one match nothing weaker will do. `PoliciesExactIff` gives the exact condition for all policies, lost
  rules included. `WholeBlockLost` and `ExceptionLost` give the two families of failures.
- **Session tables.** Allow-all rules are not installed, and networks of prefix length 0 rank below the two halves that
  stand for any address. A list is *starved* for a connection if only such rules permit it and the list denies the
  rest. `LocalTableDecision` and `GlobalTableDecision` say that the tables decide as wanted if and only if the list is
  not starved, and that they never permit too much; `StarvedIff` says for which policies that happens. A pod whose only
  policy opens every port of one protocol to all peers cannot open such connections (`PortZeroDenied`), and a pod whose
  only policy admits a block of all addresses is not reached by them (`AllAddressesDenied`).
- **Address families.** Egress rules of one address family on a pod of the other are encoded wrongly, and only those
  (`EgressExactIff`): an IPv4 network on an IPv6 pod matches IPv6 addresses that are not in it
  (`MappedNetworkHits`), and an IPv6 network on an IPv4 pod also matches what arrives at IPv6 pods whose address starts
  with 32 zero bits (`LeakHits`).
- **Network prefixes.** A network prefix length above 32 is accepted and gives every node the same network
  (`OversizedPrefix`); with a host part of fewer than 8 bits, nodes whose IDs agree in those bits share a network
  (`NetworksDisjointIff`).
- **Pending changes.** If a pending change fails, the ones after it are dropped (`ErrorDropsRest`), and all of them if the
  resync fails (`FailedResyncDropsAll`). `AppliedIffNoneDropped` gives the exact condition.
- **Restarts.** The pool of pod addresses is not restored when an agent comes back, so that the address of a pod that is
  still there is handed out again (`RestartDuplicates`). `NodeAddressesUnique` says that nothing else causes this.
- **Closing an agent.** An agent that is closed returns the ID of its node although its pods stay, and the next node that
  gets the ID hands out their addresses again (`ReturnedIDDuplicates`). Without a proviso, pods on different nodes use
  different addresses after all runs only if there are no two nodes (`UniqueIffAlone`).
- **Release of node IDs.** If the deletion of an entry takes effect but is reported as failed, the node keeps an ID that
  another node may then get as well (`LostDeletionDuplicates`, `DistinctUnlessLost`).
- **Shared addresses.** If two pods on a host have one address, for example because the one of a deleted pod was reused
  before a resync, the tags in the global table depend on the order in which a map is visited (`SharedAddress`).
- **subtractSubnet** does not recognise a network that is written with other bits past its prefix
  (`SubtractionExactIff`); this does not occur for parsed, hence canonical, networks.
- **Retries.** The node ID allocator gives up at the eleventh refused put although its constant is ten (`GivesUpIff`), and
  a rival can make it go that far (`RivalWins`).
- **Dumped ports.** An ACL rule for port 0 alone is read back as one for all ports, and port numbers past 16 bits wrap
  around (`DumpedMatchesIff`); the renderer makes no such rules.
- **Refused requests.** When VPP refuses a session rule, the rest of its batch has been sent as well, and the replies to
  it stay unread in the channel (`UpdateRules`).
- **Unused lists.** A rule list that lost its last interface stays in the ACL cache, because Remove looks for the object
  of the transaction in the cache (`EmptiedListStays`).

## Model

| member | source | states |
|---|---|---|
| `Net.SubtractSubnet` | plugins/policy/configurator/configurator_impl.go:549-581 | the loop over the prefix tree yields the function that the lemmas below are about |
| `Net.SubtractionMember` | plugins/policy/configurator/configurator_impl.go:549-581 | an address is covered by the result iff it is in net1 and not in net2, provided it is not in two spellings of one network |
| `Net.SubtractionExactIff` | plugins/policy/configurator/configurator_impl.go:549-581 | the result covers exactly net1 minus net2, over all addresses, iff the networks are not two spellings of one network with different bits past the prefix |
| `Net.SubtractionCanonical` | plugins/policy/configurator/configurator_impl.go:568-576 | subtracting canonical prefixes gives canonical prefixes, with the flipped bit inside the prefix |
| `Net.ExpandExact` | plugins/policy/configurator/configurator_impl.go:272-285 | folding the subtraction over any exceptions gives pairwise disjoint prefixes that cover exactly the block minus the union of the exceptions |
| `Net.ExpandWhole` | plugins/policy/configurator/configurator_impl.go:272-285 | exceptions leave the block in one piece, or every remaining piece is strictly smaller |
| `Rules.CompareOrder` | plugins/policy/renderer/api.go:114-142 | comparison of Contiv rules is antisymmetric and transitive, and zero exactly for equal rules |
| `Rules.CompareByField` | plugins/policy/renderer/api.go:114-142 | the first field that differs decides, in the order ID, action with deny first, source, destination, protocol with TCP first, ports |
| `Rules.IPNetOrder` | plugins/policy/utils/utils.go:162-168 | comparison of networks is a total order in which only equal networks compare equal |
| `Rules.EvaluatePermitsThen` | mock/renderer/renderer_mock.go:105-145 | first-match evaluation of permit rules followed by other rules is decided by whether some permit rule matches |
| `Configurator.GenerateRules` | plugins/policy/configurator/configurator_impl.go:232-474 | the nested loops with their two flags compute the list `Generated`, for every set of policies and direction; which policies, peers and ports count in it is said by fields in `DirectionMeaning` |
| `Configurator.AppendMatchRules` | plugins/policy/configurator/configurator_impl.go:245-440 | one match contributes exactly the specified rules, and reports whether it matches anything at all |
| `Configurator.CollectSubnets` | plugins/policy/configurator/configurator_impl.go:272-285 | following the pointers after the loop, every block that was not split reads as the last block of the match |
| `Configurator.ExpandBlock` | plugins/policy/configurator/configurator_impl.go:274-284 | the subnets of a block are a pointer into the loop variable if no exception splits it, and new networks otherwise |
| `Configurator.CollectPodPeers` | plugins/policy/configurator/configurator_impl.go:250-270 | peers without known or valid address are skipped, all others become one-host networks in order |
| `Configurator.AppendRule` | plugins/policy/configurator/configurator_impl.go:477-485 | a rule is appended unless one with its ID is there, IDs being the texts that the source joins |
| `RuleIDs.PermitTextPort` | plugins/policy/configurator/configurator_impl.go:318-432 | the ID of a permit rule determines its port |
| `RuleIDs.PermitIsNotNone` | plugins/policy/configurator/configurator_impl.go:441-474 | the ID of a permit rule is never that of a deny-the-rest rule |
| `RuleIDs.IDsCollide` | plugins/policy/configurator/configurator_impl.go:350-363 | for all names there are two policies with two pods whose rules have the same ID |
| `DashlessNames.IDsEnd` | plugins/policy/configurator/configurator_impl.go:292-432 | the IDs are policy, peer, protocol and port, with ANY for port 0, and NONE for the deny-the-rest rules |
| `DashlessNames.PermitTextTells` | plugins/policy/configurator/configurator_impl.go:292-432 | two permit rules have one ID only if policy, peer and port are the same, provided policy names have no dash, namespaces no slash, and no pod is printed like a network |
| `DashlessNames.DashlessTold` | plugins/policy/configurator/configurator_impl.go:477-493 | for all such policies, whatever the names of pods and namespaces, the IDs tell the rules apart |
| `ConfiguratorMeaning.CandidatesMeaning` | plugins/policy/configurator/configurator_impl.go:232-440 | some permit rule matches a packet iff some applicable policy has a match that covers its peer and port |
| `ConfiguratorMeaning.AppendMembers` | plugins/policy/configurator/configurator_impl.go:477-493 | appending invents no rule, keeps those that are there, loses no ID and repeats none |
| `ConfiguratorMeaning.AppendLosesNone` | plugins/policy/configurator/configurator_impl.go:477-493 | no rule is lost if rules with the same ID are the same rule |
| `ConfiguratorMeaning.IntendedShape` | plugins/policy/configurator/configurator_impl.go:441-474 | the list is permit rules of the matches, each ID once, followed by nothing or by deny-the-rest for both protocols; no permit rule is missing if IDs tell the rules apart |
| `ConfiguratorMeaning.IntendedMeaningIff` | plugins/policy/configurator/configurator_api.go:73-76 | for all policies and every packet, first-match evaluation gives the documented verdict iff a permit rule that was kept matches the packet exactly when a policy covers it |
| `ConfiguratorMeaning.IntendedMeaning` | plugins/policy/configurator/configurator_api.go:73-76 | if IDs tell the rules apart, evaluation gives the documented verdict on every packet: allowed, denied or unmatched |
| `ConfiguratorMeaning.IntendedNeverMore` | plugins/policy/configurator/configurator_impl.go:441-493 | for all policies, what the list allows the policies allow, and what they deny it denies, however many rules were lost |
| `ConfiguratorMeaning.GeneratedMeaning` | plugins/policy/configurator/configurator_impl.go:232-474 | if IDs tell the rules apart, the list that the code generates means exactly the policies as the loop variable makes them appear |
| `DirectionMeaning.OtherDirectionIgnored` | plugins/policy/configurator/configurator_impl.go:237-242 | the ingress list is the one generated without the policies of type egress, and the egress list the one without those of type ingress |
| `DirectionMeaning.MeaningByFields` | plugins/policy/configurator/configurator_api.go:73-76 | for all policies and packets the documented verdict, spelled out: ingress is allowed iff a policy not of type egress has an ingress match that lists the source and the destination port, otherwise denied iff there is such a policy; egress likewise by the destination |
| `DirectionMeaning.GeneratedByFields` | plugins/policy/configurator/configurator_impl.go:232-474 | for all policies and packets the generated list allows only what the fields list, exactly that if IDs tell the rules apart, and denies what is not listed iff a policy may apply |
| `DirectionMeaning.DenyTheRestIff` | plugins/policy/configurator/configurator_impl.go:450-474 | the list ends by denying the rest iff a policy may apply in the direction and none has a match there without peers and ports |
| `DirectionMeaning.NoMatchesIsolates` | plugins/policy/configurator/configurator_impl.go:237-243 | a policy without matches denies every packet of the directions of its type, and decides nothing in the other |
| `BlockCoverage.SubnetsExactIff` | plugins/policy/configurator/configurator_impl.go:272-285 | the subnets collected for a match are the blocks without their exceptions iff all unsplit blocks have the network of the last one |
| `BlockCoverage.NothingLeftIff` | plugins/policy/configurator/configurator_impl.go:272-285 | subtracting networks from a network leaves nothing iff they cover it, which makes the conditions below computable |
| `BlockCoverage.CoverageExactIff` | plugins/policy/configurator/configurator_impl.go:272-285 | the blocks of a match cover the same addresses as the code reads them iff every unsplit block lies in the last network and the split blocks, and the last network lies in the blocks |
| `BlockCoverage.KeptMeaning` | plugins/policy/configurator/configurator_impl.go:232-474 | under that condition on every match, and if IDs tell the rules apart, the generated list has the documented meaning for every packet |
| `ExactMeaning.PoliciesExactIff` | plugins/policy/configurator/configurator_impl.go:232-493 | for all policies: the generated list has the documented meaning for every packet iff for every port the networks that the policies allow and those of the rules that are kept lie in each other, by subtraction |
| `ExactMeaning.CollidingRuleLost` | plugins/policy/configurator/configurator_impl.go:477-485 | for all names: of two policies without blocks whose rules get the same ID, the pod of the second one is denied although it is allowed |
| `BlockCoverage.OneMatchTold` | plugins/policy/configurator/configurator_impl.go:403-416 | the IDs of the rules of one match of blocks tell them apart |
| `BlockCoverage.OneMatchExactIff` | plugins/policy/configurator/configurator_impl.go:232-474 | for a policy with one match of blocks, the list has the documented meaning for every packet iff its blocks keep their coverage |
| `BlockCoverage.WholeBlockLost` | plugins/policy/configurator/configurator_impl.go:272-285 | for every unsplit block before the last one, what only it allows is denied |
| `BlockCoverage.ExceptionLost` | plugins/policy/configurator/configurator_impl.go:272-285 | after an unsplit block, the exceptions of the last block are allowed |
| `ConfiguratorTxn.LessOrder` | plugins/policy/configurator/configurator_impl.go:526-536 | the order of policies is strict and total up to equal IDs |
| `ConfiguratorTxn.SortAscends` | plugins/policy/configurator/configurator_impl.go:526-536 | sorted policies ascend by namespace, and by name within a namespace |
| `ConfiguratorTxn.SortedUnique` | plugins/policy/configurator/configurator_impl.go:152-154 | two sorted arrangements of the same policies are equal when IDs determine policies |
| `ConfiguratorTxn.SamePoliciesSameRules` | plugins/policy/configurator/configurator_impl.go:122-195 | any permutation of a set of policies yields the identical list of rules, provided equal IDs mean equal policies |
| `ConfiguratorTxn.SortingKeepsMeaning` | plugins/policy/configurator/configurator_impl.go:152-154 | sorting changes neither the meaning of rules that IDs tell apart nor, for blocks that keep their coverage, the documented one; sorted or not, nothing is permitted that the policies deny |
| `ConfiguratorTxn.LookupMemo` | plugins/policy/configurator/configurator_impl.go:156-172 | a memo hit by IDs returns the rules of exactly the given policies |
| `ConfiguratorTxn.Commit` | plugins/policy/configurator/configurator_impl.go:122-195 | every pod with an address, and no other, gets its own address and what rule generation gives for its own sorted policies, whatever the memo holds; for every packet its egress rules give the verdict of the ingress direction of the policies and its ingress rules that of the egress direction, if IDs tell the rules apart, and in any case deny what the policies deny |
| `SessionRules.SessionSymmetry` | plugins/policy/renderer/vpptcp/cache/cache_api.go:173-214 | comparison with and without tag is antisymmetric; with tag only equal rules compare equal, and it refines the one without |
| `SessionRules.SessionByField` | plugins/policy/renderer/vpptcp/cache/cache_api.go:173-214 | the first field that differs decides, in the order namespace, scope, action, family, local and remote network with the prefix length first, protocol, ports, tag |
| `SessionRules.SessionTransitive` | plugins/policy/renderer/vpptcp/cache/cache_api.go:173-214 | both comparisons are transitive |
| `SessionRules.SessionRuleList.LookupIdxByRule` | plugins/policy/renderer/vpptcp/cache/cache_impl.go:394-399 | binary search finds the first position whose rule is not smaller |
| `SessionRules.SessionRuleList.InsertRule` | plugins/policy/renderer/vpptcp/cache/cache_impl.go:412-431 | inserts in order unless an equal rule up to the tag is there; keeps nils behind the used slots |
| `SessionRules.SessionRuleList.Insert` | plugins/policy/renderer/vpptcp/cache/cache_impl.go:402-410 | inserts all rules and reports whether none was rejected |
| `SessionRules.SessionRuleList.Remove` | plugins/policy/renderer/vpptcp/cache/cache_impl.go:434-445 | removes exactly the rule at the index and keeps the slots in shape |
| `SessionRules.SessionRuleList.Diff` | plugins/policy/renderer/vpptcp/cache/cache_impl.go:449-479 | the merge loop ends with exactly the rules in one list and not in the other, both ways, in order |
| `SessionRules.InsertAllMembers` | plugins/policy/renderer/vpptcp/cache/cache_impl.go:402-431 | a list filled from a sequence is strictly sorted and holds the first rule of each class of rules equal up to the tag |
| `SessionRules.SortedUnique` | plugins/policy/renderer/vpptcp/cache/cache_impl.go:402-431 | a sorted list is determined by its members |
| `CombinedRules.IsSubsetOf` | plugins/policy/renderer/vpptcp/cache/cache_impl.go:522-535 | true iff every port allowed by one set is allowed by the other, the any-port entry included |
| `CombinedRules.Intersection` | plugins/policy/renderer/vpptcp/cache/cache_impl.go:538-552 | the intersection allows exactly the ports that both sets allow |
| `CombinedRules.GetAllowedPorts` | plugins/policy/renderer/vpptcp/cache/cache_impl.go:556-596 | the sets hold exactly the ports of the permit rules whose network matches the address, per protocol |
| `CombinedRules.GetCombinedIngressRules` | plugins/policy/renderer/vpptcp/cache/cache_impl.go:249-392 | for every order of the namespaces and ports, the result is the ingress list without the rules of restricted peers plus new host rules for each of them |
| `CombinedDecisions.CombinedBetweenPods` | plugins/policy/renderer/vpptcp/cache/cache_impl.go:249-392 | between two pods of the host the combined rules permit a connection iff the ingress list of one and the egress list of the other do |
| `CombinedDecisions.CombinedToOthers` | plugins/policy/renderer/vpptcp/cache/cache_impl.go:249-392 | for addresses of no other pod of the host the decision is that of the ingress list alone |
| `CombinedDecisions.RestrictedIff` | plugins/policy/renderer/vpptcp/cache/cache_impl.go:289-392 | rules are folded in for another pod and protocol iff the egress list of the pod denies some port that the ingress list of the source permits |
| `CombinedDecisions.NothingFolded` | plugins/policy/renderer/vpptcp/cache/cache_impl.go:249-392 | if no pod takes anything away, the ingress list is returned as it is |
| `Conversion.ConvertIngressRules` | plugins/policy/renderer/vpptcp/cache/cache_impl.go:684-771 | the loop computes the specified session rules, including the half listed twice; what VPP reads in their numbers is `IngressOneHits` |
| `Conversion.ConvertEgressRules` | plugins/policy/renderer/vpptcp/cache/cache_impl.go:600-680 | the loop computes the specified session rules; what VPP reads in their numbers is `EgressExactIff` |
| `Conversion.IngressOneHits` | plugins/policy/renderer/vpptcp/cache/cache_impl.go:684-771 | read by VPP (scope 2 is local, family 1 is IPv4, protocol 0 is TCP and 1 is UDP), a converted ingress rule takes part in the lookups of its namespace only and matches there the same connections; no two different halves match the same one |
| `Conversion.EgressOneHits` | plugins/policy/renderer/vpptcp/cache/cache_impl.go:600-680 | read by VPP (scope 1 is global), a converted encodable egress rule matches the same arriving connections, by one session rule at most |
| `Conversion.EgressOwnAddress` | plugins/policy/renderer/vpptcp/cache/cache_impl.go:600-680 | a converted egress rule matches only what arrives at its own pod, unless it leaks |
| `Conversion.EgressExactIff` | plugins/policy/renderer/vpptcp/cache/cache_impl.go:600-680 | over all local addresses, remote addresses of their family, protocols and ports, a converted egress rule matches exactly its own pod, network, protocol and port, iff the network is of the family of the pod |
| `Conversion.MappedNetworkHits` | plugins/policy/renderer/vpptcp/cache/cache_impl.go:623-653 | an IPv4 network on an IPv6 pod matches IPv6 addresses that are not in it |
| `Conversion.LeakHits` | plugins/policy/renderer/vpptcp/cache/cache_impl.go:623-653 | an IPv6 network on an IPv4 pod matches what arrives at every IPv6 pod whose address starts with 32 zero bits |
| `TableSpec.LocalTableBuilt` | plugins/policy/renderer/vpptcp/cache/cache_impl.go:228-245 | inserting the converted combined rules, in whatever order they were found, gives the specified local table |
| `TableSpec.GlobalTableBuilt` | plugins/policy/renderer/vpptcp/cache/cache_impl.go:228-245 | inserting the egress rules of the namespaces in any order gives the specified global table |
| `TableSpec.TablesUnique` | plugins/policy/renderer/vpptcp/cache/cache_impl.go:228-245 | only one table, tags included, meets the specification, so that refreshing is confluent |
| `TableSpec.SharedAddress` | plugins/policy/renderer/vpptcp/cache/cache_impl.go:228-245 | if two namespaces share an address and a rule, the two orders of visiting them give different global tables |
| `TableLookup.SortedLookup` | plugins/policy/renderer/vpptcp/cache/cache_impl.go:394-431 | looking a connection up in a sorted table is a vote by prefix length in which allow wins ties |
| `TableLookup.ShapedInstalled` | plugins/policy/renderer/vpptcp/cache/cache_impl.go:600-771 | installed rules decide as the list does iff the list is not starved, and never permit more |
| `TableDecisions.LocalTableDecision` | plugins/policy/renderer/vpptcp/cache/cache_impl.go:228-392 | a local table permits a connection iff the lists of both ends do, exactly when rules were made for the destination or the list is not starved; it never permits more |
| `TableDecisions.GlobalTableDecision` | plugins/policy/renderer/vpptcp/cache/cache_impl.go:228-245 | the global table permits an arriving connection iff the egress list of the pod does, exactly when that list is not starved |
| `SessionCache.TablesForUnique` | plugins/policy/renderer/vpptcp/cache/cache_impl.go:228-245 | a configuration determines all of its tables |
| `SessionCache.NoTwinsInTables` | plugins/policy/renderer/vpptcp/cache/cache_impl.go:412-431 | no two rules of the tables differ only in their tags |
| `SessionCache.DiffTables` | plugins/policy/renderer/vpptcp/cache/cache_impl.go:483-502 | added and removed are exactly the differences of all tables, each rule once, for any order of namespaces |
| `SessionCache.TablesOfDump` | plugins/policy/renderer/vpptcp/cache/cache_impl.go:187-205 | tables filled from a dump hold the first of the dumped rules equal up to the tag |
| `SessionCache.BuildGlobal` | plugins/policy/renderer/vpptcp/cache/cache_impl.go:228-245 | the loop builds the table of the configuration |
| `SessionCache.BuildLocal` | plugins/policy/renderer/vpptcp/cache/cache_impl.go:228-245 | the local table of a namespace is the specified one |
| `SessionCache.SessionRuleCacheTxn.constructor` | plugins/policy/renderer/vpptcp/cache/cache_impl.go:126-141 | a transaction starts from the configuration of the cache, or from nothing for a resync |
| `SessionCache.SessionRuleCacheTxn.Update` | plugins/policy/renderer/vpptcp/cache/cache_impl.go:165-175 | replaces the configuration of one namespace and marks the tables as outdated |
| `SessionCache.TableTagsUnique` | plugins/policy/renderer/vpptcp/cache/cache_impl.go:600-771 | if IDs tell the rules of a namespace apart, the session rules of all tables have pairwise different tags |
| `SessionCache.SessionRuleCacheTxn.RefreshTables` | plugins/policy/renderer/vpptcp/cache/cache_impl.go:228-245 | afterwards the tables are those of the configuration |
| `SessionCache.SessionRuleCacheTxn.Changes` | plugins/policy/renderer/vpptcp/cache/cache_impl.go:180-215 | reports exactly what the new tables have more or less than the cache, or than the dump in a resync |
| `SessionCache.SessionRuleCacheTxn.Commit` | plugins/policy/renderer/vpptcp/cache/cache_impl.go:218-224 | the cache takes over the configuration and the tables that belong to it |
| `VppTcpRenderer.UpdateRules` | plugins/policy/renderer/vpptcp/vpptcp_renderer.go:162-219 | the nested batching loops never exceed the channel; they succeed iff VPP accepts all deletions and then all additions in order, and then all replies were received; otherwise exactly the requests up to the end of the batch of the first refused one were sent, and the replies after its own are unread |
| `VppTcpRenderer.RequestsKeep` | mock/sessionrules/sessionrules_mock.go:270-349 | no request makes VPP hold two rules equal up to the tag, or changes a rule without the prefix |
| `VppTcpRenderer.UpdateAccepted` | plugins/policy/renderer/vpptcp/vpptcp_renderer.go:162-219 | deleting present rules and adding rules that clash with none in content or tag is never refused, and leaves exactly the installed rules minus the removed plus the added ones |
| `VppTcpRenderer.UpdateSyncs` | plugins/policy/renderer/vpptcp/vpptcp_renderer.go:162-219 | afterwards the rules of the renderer in VPP are exactly those of the tables, and foreign rules are untouched |
| `VppTcpRenderer.UpdateAcceptedIff` | plugins/policy/renderer/vpptcp/vpptcp_renderer.go:162-219 | VPP accepts the differences iff no foreign rule equals a rule of the tables up to the tag |
| `VppTcpRenderer.StepSyncs` | plugins/policy/renderer/vpptcp/vpptcp_renderer.go:246-261 | every transaction keeps VPP equal to the tables of the configuration; a resync reaches this from any installed rules that differ in more than tags, as those of a VPP always do (RequestsKeep) |
| `VppTcpRenderer.RunSyncs` | plugins/policy/renderer/vpptcp/vpptcp_renderer.go:246-261 | the same after any sequence of transactions |
| `VppTcpRenderer.DumpRules` | plugins/policy/renderer/vpptcp/vpptcp_renderer.go:87-130 | the dump keeps exactly the rules whose tags have the prefix of the renderer |
| `VppTcpRenderer.RendererTxn.Commit` | plugins/policy/renderer/vpptcp/vpptcp_renderer.go:246-261 | on the objects of cache and channel, Commit brings VPP from a synchronised state, or in a resync from any rules that differ in more than tags, to the tables of the new configuration |
| `Pipeline.ListMeaning` | plugins/policy/configurator/configurator_impl.go:122-195 | the rule list handed to a renderer permits nothing that the policies deny, and everything else if IDs tell its rules apart |
| `Pipeline.DocumentedVerdict` | plugins/policy/configurator/configurator_api.go:73-76 | for blocks that keep their coverage this is the documented meaning |
| `Pipeline.ListIDsDistinct` | plugins/policy/configurator/configurator_impl.go:477-493 | the rules of a generated list have different IDs |
| `CombinedIDs.CombinedIDsRead` | plugins/policy/renderer/vpptcp/cache/cache_impl.go:319-381 | the IDs are made of both namespaces, the protocol and the port, with NONE for the deny-the-rest rules; those for UDP lack the namespace of the table |
| `CombinedIDs.CombinedTextTells` | plugins/policy/renderer/vpptcp/cache/cache_impl.go:318-389 | within a namespace the ID of a combined rule determines the rule |
| `CombinedIDs.CombinedIsNotPermit` | plugins/policy/renderer/vpptcp/cache/cache_impl.go:318-389 | the ID of a combined rule is never that of a rule of the configurator |
| `Pipeline.ConfiguredIDs` | plugins/policy/renderer/vpptcp/cache/cache_impl.go:600-771 | on every configured host the IDs of the source tell the rules of every namespace apart, also from the combined ones, as the tags require |
| `Pipeline.StarvedIff` | plugins/policy/renderer/vpptcp/cache/cache_impl.go:600-771 | for all policies whose rules IDs tell apart: the generated list is starved of a connection iff not everything is allowed, some match covers the connection, and every such match does so only by an explicit port 0 of any peer or by an unsplit block of all addresses |
| `Pipeline.PlainNotStarved` | plugins/policy/renderer/vpptcp/cache/cache_impl.go:600-771 | lists generated from policies without explicit port 0 for any peer and without blocks of all addresses are never starved |
| `Pipeline.LocalTableMeaning` | plugins/policy/renderer/vpptcp/cache/cache_impl.go:228-392 | from policies to table: a local table never permits a connection that the policies of either end deny; if IDs tell the rules of both ends apart it permits exactly what neither denies, exactly when rules were made for the destination or the egress policies are not starving |
| `Pipeline.GlobalTableMeaning` | plugins/policy/renderer/vpptcp/cache/cache_impl.go:228-245 | from policies to table: the same for connections arriving at a pod and its ingress policies |
| `Pipeline.CommittedConfig` | plugins/policy/configurator/configurator_impl.go:122-195 | what Commit hands out for the pods of a host, put into the namespaces of the pods, is a configuration that `LocalTableMeaning` and `GlobalTableMeaning` speak about |
| `InstalledDecisions.InstalledDecides` | plugins/policy/renderer/vpptcp/vpptcp_renderer.go:86-125 | VPP, which holds the rules of all tables together, decides every connection as the one table of its lookup, if no rule of somebody else matches it |
| `InstalledDecisions.OpenedMeaning` | plugins/policy/renderer/vpptcp/cache/cache_impl.go:228-392 | from policies to VPP: what a pod opens is permitted only if the policies of neither end deny it, and exactly then if IDs tell the rules apart and the egress policies are not starving |
| `InstalledDecisions.ArrivedMeaning` | plugins/policy/renderer/vpptcp/cache/cache_impl.go:228-245 | from policies to VPP: the same for what arrives at a pod and its ingress policies |
| `Pipeline.PortZeroDenied` | plugins/policy/renderer/vpptcp/cache/cache_impl.go:684-692 | a pod whose only policy opens all ports of a protocol to all peers cannot open a connection of that protocol to a peer without rules of its own, although the policies permit it |
| `Pipeline.AllAddressesDenied` | plugins/policy/renderer/vpptcp/cache/cache_impl.go:653-680 | a pod whose only policy admits a block of all addresses is reached by none of them |
| `VppAcl.RenderRules` | plugins/policy/renderer/acl/acl_renderer.go:385-445 | the loop renders every rule in order; what VPP does with the result is `AclMeaning.RenderedMeaning` |
| `VppAcl.DumpRules` | plugins/policy/renderer/acl/acl_renderer.go:230-337 | the loop keeps the rules that can be read back, in order, and skips those of `AclMeaning.SkippedIff`; what is read back means what VPP does by `AclMeaning.DumpedMeaning` |
| `VppAcl.DumpRendered` | plugins/policy/renderer/acl/acl_renderer.go:194-445 | a rendered rule is read back unchanged, up to the length of the byte form of IPv4 addresses, iff its networks have no bits set past their prefixes |
| `VppAcl.DumpRenderedAll` | plugins/policy/renderer/acl/acl_renderer.go:194-445 | rendering and dumping a list of canonical rules is the identity, up to the byte form of IPv4 addresses |
| `VppAcl.RoundTripIff` | plugins/policy/renderer/acl/acl_renderer.go:194-445 | dumping and rendering an ACL is the identity iff every rule is one that the renderer produces, so that none is skipped |
| `AclMeaning.RenderedMeaning` | plugins/policy/renderer/acl/acl_renderer.go:385-445 | for all rules and packets, matching the fields of the rendered ACL (printed networks, port intervals, protocol) and taking the first action decides as first match on the rules; what is allowed is reflected, so that replies pass |
| `AclMeaning.SkippedIff` | plugins/policy/renderer/acl/acl_renderer.go:230-337 | a rule is skipped iff its action is neither DENY nor REFLECT, it has no IP match, a network does not parse, the protocol is another one, or a range is neither one port nor 0 to 65535 |
| `AclMeaning.DumpedMatchesIff` | plugins/policy/renderer/acl/acl_renderer.go:230-337 | a rule that is read back matches exactly the packets that VPP matches iff no port range is port 0 alone or past 16 bits |
| `AclMeaning.DumpedMeaning` | plugins/policy/renderer/acl/acl_renderer.go:230-337 | an ACL of which no rule is skipped, with such ports, is read back into a list that decides every packet as VPP does |
| `AclRuleLists.CompareListsOrder` | plugins/policy/renderer/acl/cache/cache_impl.go:619-640 | comparison of rule lists is a total order in which only equal lists compare equal, nil and empty being different |
| `AclRuleLists.ContivRuleLists.LookupIdxByRules` | plugins/policy/renderer/acl/cache/cache_impl.go:421-426 | binary search finds the first list whose rules are not smaller |
| `AclRuleLists.ContivRuleLists.LookupByRules` | plugins/policy/renderer/acl/cache/cache_impl.go:528-535 | finds the one list with the given rules, or nil iff there is none |
| `AclRuleLists.ContivRuleLists.LookupByInterface` | plugins/policy/renderer/acl/cache/cache_impl.go:538-544 | finds the one list that the interface is assigned to, or nil iff there is none |
| `AclRuleLists.ContivRuleLists.Insert` | plugins/policy/renderer/acl/cache/cache_impl.go:429-452 | rejects exactly lists whose rules are there; otherwise the interfaces move over from all other lists; order and both indexes stay consistent |
| `AclRuleLists.ContivRuleLists.RemoveByIdx` | plugins/policy/renderer/acl/cache/cache_impl.go:465-480 | removes exactly the list at the index from the order and from both indexes |
| `AclRuleLists.ContivRuleLists.Remove` | plugins/policy/renderer/acl/cache/cache_impl.go:455-462 | removes the very object iff it is there, and nothing else |
| `AclRuleLists.ContivRuleLists.RemoveByPredicate` | plugins/policy/renderer/acl/cache/cache_impl.go:483-495 | keeps exactly the lists that do not satisfy the predicate and counts the others |
| `AclRuleLists.ContivRuleLists.AssignInterface` | plugins/policy/renderer/acl/cache/cache_impl.go:498-502 | the interface is in the given list and in no other |
| `AclRuleLists.ContivRuleLists.UnassignInterface` | plugins/policy/renderer/acl/cache/cache_impl.go:506-516 | the interface leaves the given list, or any list for nil |
| `AclRuleLists.ContivRuleLists.ViewWf` | plugins/policy/renderer/acl/cache/cache_impl.go:73-79 | consistent indexes imply that no two lists have the same rules and no interface is in two lists |
| `AclLists.CopyIsSafe` | plugins/policy/renderer/acl/cache/cache_impl.go:254-269 | when a list of the cache is copied into a transaction, none of its interfaces was updated yet and no list of the transaction has its rules |
| `AclLists.UpdateKeepsHead` | plugins/policy/renderer/acl/cache/cache_impl.go:252-322 | every update keeps the invariant of transactions and gives the interface exactly its new rules; no insertion is rejected |
| `AclLists.CommitAllCommits` | plugins/policy/renderer/acl/cache/cache_impl.go:379-419 | after any prefix of the loop of commit, ownership of every interface is the one of the committed lists, else the old one |
| `AclLists.EmptiedListStays` | plugins/policy/renderer/acl/cache/cache_impl.go:379-419 | after a transaction that takes the last interface from a list, the cache still has the list, without interfaces |
| `AclLists.CommitRefines` | plugins/policy/renderer/acl/cache/cache_impl.go:239-419 | updates and commit refine the plain map: updated interfaces have their last rules, others keep their list, and two interfaces share a list iff their rules are equal |
| `AclCache.UpdateInterfaceLists` | plugins/policy/renderer/acl/cache/cache_impl.go:252-322 | on the objects, an update is the specified one, the cache is not touched, and the invariant of transactions is kept |
| `AclCache.GetChanges` | plugins/policy/renderer/acl/cache/cache_impl.go:339-362 | reports exactly the lists whose interfaces differ from before, each once, with their previous interfaces |
| `AclCache.CommitList` | plugins/policy/renderer/acl/cache/cache_impl.go:379-419 | one round of commit, including a removal that removes nothing, is the specified one |
| `AclCache.CommitLists` | plugins/policy/renderer/acl/cache/cache_impl.go:379-419 | on the objects, which end up shared between transaction and cache, commit refines the plain map |
| `AclTxn.FilterEmpty` | plugins/policy/renderer/acl/acl_renderer.go:182-190 | keeps exactly the changes of lists with rules |
| `AclTxn.RenderChanges` | plugins/policy/renderer/acl/acl_renderer.go:352-382 | puts and deletes exactly the specified ACLs, and remembers new ones in Private |
| `AclTxn.UpdateDirection` | plugins/policy/renderer/acl/cache/cache_impl.go:217-322 | generated IDs are new, and registered iff a list was created |
| `AclTxn.ContivRuleCacheTxn.Update` | plugins/policy/renderer/acl/cache/cache_impl.go:239-249 | updates both directions without interference |
| `AclRenderer.TableAfterCommit` | plugins/policy/renderer/acl/acl_renderer.go:352-382 | what is sent turns the ACLs of the old cache content into those of the new one, and Private stays the rendered ACL |
| `AclResync.DumpVppACLConfig` | plugins/policy/renderer/acl/acl_renderer.go:194-349 | every ACL with interfaces becomes one list of its direction |
| `AclResync.LoadLists` | plugins/policy/renderer/acl/cache/cache_impl.go:138-199 | the loop with its three early exits computes the specified lists or fails when they do |
| `AclResync.LoadSucceedsIff` | plugins/policy/renderer/acl/cache/cache_impl.go:138-199 | resync succeeds iff the lists in use have the right prefix, distinct IDs and distinct rules, and then holds exactly them |
| `AclResync.LoadExact` | plugins/policy/renderer/acl/cache/cache_impl.go:138-199 | a dump of rendered ACLs is accepted and loaded as it is |
| `AclRuns.RebuiltEntry` | plugins/policy/renderer/acl/acl_renderer.go:194-349 | every ACL of the renderer is read back into the list it was rendered from, up to the byte form of IPv4 addresses |
| `AclRuns.SkipSets` | plugins/policy/renderer/acl/acl_renderer.go:154-162 | when all changes are filtered out, the cache that is not committed already has the wanted rules |
| `AclRuns.CommitKeeps` | plugins/policy/renderer/acl/acl_renderer.go:121-179 | every transaction keeps VPP equal to the cache and gives every interface exactly the wanted rules in both directions |
| `AclRuns.TruthfulIff` | plugins/policy/renderer/acl/acl_renderer.go:194-349 | for any table of VPP whose ACLs differ in rules and interfaces: what the rebuilt cache believes about every interface is what VPP does iff every ACL with interfaces is bound in one direction only and consists of rules that the renderer produces, at least one |
| `AclRuns.ResyncForgets` | plugins/policy/renderer/acl/acl_renderer.go:121-152 | a resync depends on VPP alone, whatever the cache held before, as after a restart |
| `AclRuns.ResyncAdopts` | plugins/policy/renderer/acl/acl_renderer.go:121-179 | a resync brings cache and VPP in step, with the wanted rules, from every table whose ACLs in use are recognised, carry the name of their direction and differ in rules and interfaces |
| `AclRuns.RunBinds` | plugins/policy/renderer/acl/acl_renderer.go:121-190 | after any sequence of transactions and resyncs, from an empty VPP or one that the first resync takes over, each interface is bound to exactly one ACL per direction with the rules rendered last, or to none if those are empty |
| `AclRuns.RunDecides` | plugins/policy/renderer/acl/acl_renderer.go:121-190 | after any such run, VPP decides every packet of an interface, in either direction, as the first match of the rules rendered last for it, and nothing if there are none |
| `AclRuns.LastTxnDecides` | plugins/policy/renderer/acl/acl_renderer.go:121-190 | the last transaction decides what enters by the ingress rules of an interface it configures and what leaves by the egress rules; a resync leaves all other interfaces undecided, and another transaction leaves them as they were |
| `AclRuns.RunNames` | plugins/policy/renderer/acl/cache/cache_api.go:76-82 | after any run an ACL in use is bound in one direction, and its name starts with ingress- or egress- accordingly |
| `AclCommit.Renderer.Commit` | plugins/policy/renderer/acl/acl_renderer.go:121-179 | Commit on the objects of the cache is one step of that state machine, for any order of map iteration and any generated IDs, after which VPP decides the packets of the configured interfaces by their rules; if VPP does not apply it, the cache stays in step with VPP |
| `NodeIDs.FindFirstAvailableIndex` | plugins/contiv/node_id_allocator.go:183-194 | for any list, the number of the first position that does not hold its own number; for increasing positive IDs, the least positive number that is missing |
| `NodeIDs.StepKeeps` | plugins/contiv/node_id_allocator.go:69-148 | every access of every node keeps: one entry per label, holders own their entries, candidates and IDs are at most the number of nodes, unless a deletion gets lost |
| `NodeIDs.IDsAreUnique` | plugins/contiv/node_id_allocator.go:69-194 | after any interleaving with crashes and ambiguous errors of puts, IDs are unique, owned and in 1..N, and fit uint8 for N up to 255 |
| `NodeIDs.DistinctUnlessLost` | plugins/contiv/node_id_allocator.go:119-133 | IDs are distinct after every run without a deletion that takes effect while its node is told that it failed, and after all runs iff there are no two nodes |
| `NodeIDs.LostDeletionDuplicates` | plugins/contiv/node_id_allocator.go:119-133 | with one such deletion a run ends with two nodes holding the same ID |
| `NodeIDs.GivesUpIff` | plugins/contiv/node_id_allocator.go:90-113 | in every run, a refused put makes a node give up iff it is the eleventh since the node looked for its entry, and there is no twelfth |
| `NodeIDs.RivalWins` | plugins/contiv/node_id_allocator.go:90-113 | for every pair of nodes there is a run with eleven refused puts after which the node gives up |
| `NodeIDAllocator.FindExistingEntry` | plugins/contiv/node_id_allocator.go:152-180 | finds an entry with the label iff there is one |
| `NodeIDAllocator.ListAllIDs` | plugins/contiv/node_id_allocator.go:197-219 | the keys of the store in increasing order |
| `NodeIDAllocator.IdAllocator.GetID` | plugins/contiv/node_id_allocator.go:69-116 | whatever other nodes do between its accesses and whatever fails, the node ends up owning the ID it returns, or holding none |
| `NodeIDAllocator.IdAllocator.Attempt` | plugins/contiv/node_id_allocator.go:90-113 | one round of the loop claims the ID, gives up or may try again |
| `NodeIDAllocator.IdAllocator.ReleaseID` | plugins/contiv/node_id_allocator.go:119-133 | removes the entry of the node; fails iff it has none or the deletion is reported as failed, and then the node keeps its ID whether or not the entry is gone |
| `Ipam.HostPartIs` | plugins/contiv/ipam/ipam.go:380-382 | masking in uint8 takes the ID modulo the size of its place, or leaves it alone from 8 bits on |
| `Ipam.MaskIs` | plugins/contiv/ipam/ipam.go:170-173 | the mask computed in uint32 has the wanted number of ones, and none beyond 32 |
| `Ipam.NetworkIs` | plugins/contiv/ipam/ipam.go:158-175 | the network is the subnet followed by the host part; nothing wraps |
| `Ipam.InNetworkIff` | plugins/contiv/ipam/ipam.go:158-175 | an address is in the network of a node iff it is in the subnet and its host part is that of the node |
| `Ipam.NetworksDisjointIff` | plugins/contiv/ipam/ipam.go:158-175 | networks of two nodes are equal if their IDs agree as far as they fit and disjoint otherwise, inside the subnet |
| `Ipam.OversizedPrefix` | plugins/contiv/ipam/ipam.go:137-175 | with a prefix length above 32 all nodes get the same network with an empty mask |
| `Ipam.OtherNetworkIsOwn` | plugins/contiv/ipam/ipam.go:158-175 | the network computed for the ID of another node from the size of the own network is that of the other node, oversized prefixes included |
| `Ipam.IPAM.OtherHostPodNetwork` | plugins/contiv/ipam/ipam.go:253-265 | what a node computes for another ID is the network that the other node gave itself |
| `Ipam.IPAM.New` | plugins/contiv/ipam/ipam.go:70-155 | fails iff the subnet of pods or of the VSwitch is not IPv4 or not shorter than its network prefix, or the one of the nodes does not parse; otherwise the networks are the specified ones, the gateway is the address of the pod network plus 1, and the ends of the link to the VSwitch are its network plus 1 and plus 2 |
| `Ipam.IPAM.NextPodIP` | plugins/contiv/ipam/ipam.go:282-317 | in numbers: hands out an address strictly between the network plus 1 and the end of the network, below which all after the gateway are taken; fails iff the pod ID is empty or all addresses of that range are taken; for oversized prefixes the same modulo the size of the address space |
| `Ipam.IPAM.ReleasePodIP` | plugins/contiv/ipam/ipam.go:320-339 | takes back one address of the pod; fails iff it has none; ignores the empty ID |
| `Ipam.AssignedInside` | plugins/contiv/ipam/ipam.go:282-317 | addresses in use lie in the network without wrap-around and are neither its address nor the gateway |
| `Ipam.ReleaseRestores` | plugins/contiv/ipam/ipam.go:282-339 | releasing what a pod without addresses was just given restores the pool |
| `PodAddresses.NextKeeps` | plugins/contiv/plugin_impl_contiv.go:123-130 | every event of the cluster keeps the protocol invariant and every pool inside the network of the ID its node holds; and every pod inside the network of the entry of its node, across crashes, unless the node returns its ID |
| `PodAddresses.NodeNetworksDisjoint` | plugins/contiv/ipam/ipam.go:158-317 | in every reachable state of up to 255 nodes with a host part of at least 8 bits, networks and pools of two started nodes are disjoint and inside the pod subnet |
| `PodAddresses.PodAddressesUnique` | plugins/contiv/ipam/ipam.go:158-317 | in every such state of a run in which no node returns its ID while pods are still there, and however often agents crashed and came back, pods on different nodes use different addresses of the pod subnet |
| `PodAddresses.ReturnedIDDuplicates` | plugins/contiv/plugin_impl_contiv.go:180-186 | for every cluster and any two nodes there is a run in which one returns its ID and the other hands out the address of a pod that is still there |
| `PodAddresses.UniqueIffAlone` | plugins/contiv/plugin_impl_contiv.go:180-186 | after all runs pods on different nodes use different addresses iff there are no two nodes |
| `PodAddresses.NodeAddressesUnique` | plugins/contiv/ipam/ipam.go:282-339 | in every run in which no agent starts while pods of its node are there, no two pods of a node use the same address |
| `PodAddresses.RestartDuplicates` | plugins/contiv/ipam/ipam.go:123-133 | for every cluster and node there is a run in which the agent comes back and gives the address of a pod that is still there to another pod |
| `DelayedResync.Plugin.OnResync` | plugins/policy/plugin_impl_policy.go:204-210 | a resync replaces whatever is pending |
| `DelayedResync.Plugin.OnChange` | plugins/policy/plugin_impl_policy.go:212-222 | a change is appended while a resync is pending and applied otherwise |
| `DelayedResync.Plugin.OnStarted` | plugins/policy/plugin_impl_policy.go:231-260 | the loop applies the resync and, if it succeeds, the pending changes up to the first error; nothing stays pending |
| `DelayedResync.RunIsImmediate` | plugins/policy/plugin_impl_policy.go:198-260 | for every interleaving in which no resync and no change before the last pending one fails when the resync starts, the content with the pending events on top is what applying every event at once gives |
| `DelayedResync.EveryChangeOnce` | plugins/policy/plugin_impl_policy.go:198-260 | under the same condition, the cache is given the latest resync and every change after it, once and in order |
| `DelayedResync.AppliedIffNoneDropped` | plugins/policy/plugin_impl_policy.go:239-247 | when the resync starts, everything pending is applied iff no change is pending, or neither the resync nor a change before the last one fails |
| `DelayedResync.ErrorDropsRest` | plugins/policy/plugin_impl_policy.go:239-247 | a change that fails makes the one after it get lost, which applying at once would not |
| `DelayedResync.FailedResyncDropsAll` | plugins/policy/plugin_impl_policy.go:239-247 | after a resync that fails no pending change is applied |

## Left out

- Tags and keys: hashing is a function parameter, assumed injective where `GoodIDs` is required. Decimal keys of node IDs
  are numbers.
- Parsing and printing of networks: an address is a bit string whose length is its family; text is a value that parses or
  does not, and networks are printed in any way that tells them apart. The 4-byte and 16-byte forms of IPv4 addresses are
  not distinguished.
- Policy cache and processor (label selectors, outdated pods): LookupPod is modelled by its documented contract.
- VPP: session rules are added and deleted as in mock/sessionrules/sessionrules_mock.go, tags included; an ACL transaction
  is applied as a whole or not at all; a VPPTCP transaction after one that VPP refused is not modelled. What VPP does with
  a packet that no rule of an ACL matches is not modelled either.
- Parallel rendering, reuse of a transaction after commit and interleaved transactions on one cache.
- Node IDs: a put or a deletion whose reply is lost takes effect before the call returns or never, and one process acts
  for a label at a time.
- VppAcl.DumpRules: a rule with neither TCP, UDP, ICMP nor another protocol set, on which the source dereferences nil, is
  not representable.
- VppAcl.DumpRendered: the source keeps the address of a pod in 16 bytes and reads it back in 4, so that rules of pods
  compare as different after a resync and are rendered again; the model has one form for both.
- VppAcl.DumpRenderedAll: the same.
- AclRuns.RebuiltEntry: the same.
- NodeIDs.StepKeeps: requires that the step is not a deletion that gets lost (`NodeIDs.LostDeletionDuplicates`).
- PodAddresses.NextKeeps: has no event for a lost deletion, for the same reason.
- Pipeline.GlobalTableMeaning: requires that the rules of the pod are of its family and that no rule of another pod leaks
  to it, because other rules are encoded wrongly (`Conversion.EgressExactIff`).
- TableDecisions.GlobalTableDecision: requires the same.
- VppTcpRenderer.StepSyncs: requires that no foreign rule equals a rule of the tables up to its tag, as VPP would refuse
  it (`VppTcpRenderer.UpdateAcceptedIff`), and that the IDs of rules are good, which `Pipeline.ConfiguredIDs` shows for
  those of the source.
- AclCommit.Renderer.Commit: requires a table of VPP that the cache is in step with or, in a resync, one that it takes
  over; a resync that fails to load the dump (`AclResync.LoadSucceedsIff`) changes nothing and is left out.
- AclRuns.RunBinds: requires rules with canonical networks, because others do not survive a dump
  (`VppAcl.DumpRendered`).
- AclRuleLists.ContivRuleLists.Insert: requires an ID that no list has, which every caller makes sure of; the source would
  otherwise drop the older list from the index by ID only.
- SessionCache.SessionRuleCacheTxn.RefreshTables: requires distinct pod addresses, without which the tables depend on the
  iteration order of a map (`TableSpec.SharedAddress`).
