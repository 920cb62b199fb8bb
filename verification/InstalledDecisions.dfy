/** What VPP decides with everything that is installed, by the policies of the pods of the host
    (plugins/policy/renderer/vpptcp/vpptcp_renderer.go). */
module InstalledDecisions {
  import opened Base
  import opened Net
  import opened Rules
  import opened Policies
  import opened RuleIDs
  import Configurator
  import ConfiguratorMeaning
  import opened SessionRules
  import opened CombinedRules
  import opened Conversion
  import opened TableSpec
  import opened TableLookup
  import opened TableDecisions
  import opened SessionCache
  import opened Pipeline
  import VppTcpRenderer

  ghost function InstalledVotes(installed: set<SessionRule>, c: Conn): set<Vote> {
    set s | s in installed && SessionHits(s, c) :: VoteOf(s)
  }

  /** Of all installed rules that match, one of the highest rank decides, and allows if any does. */
  ghost predicate VppPermits(installed: set<SessionRule>, c: Conn) {
    PermitWins(InstalledVotes(installed, c))
  }

  function TableFor(t: Tables, lookup: Lookup): seq<SessionRule> {
    match lookup
    case LocalTable(ns) => LocalOf(t, ns)
    case GlobalTable => t.global
  }

  lemma TableForUniform(names: Names, cfg: Config, t: Tables, lookup: Lookup)
    requires IsTablesFor(names, cfg, t)
    ensures Sorted(TableFor(t, lookup))
    ensures match lookup
            case LocalTable(ns) => Uniform(TableFor(t, lookup), ns, 2)
            case GlobalTable => Uniform(TableFor(t, lookup), 0, 1)
  {
    hide InLocal, InGlobal, IngressOne, Sorted, CompareSession;
    match lookup
    case LocalTable(ns) =>
      if ns in cfg {
        forall s | s in t.local[ns] ensures s.appnsIndex == ns && s.scope == 2 && s.actionIndex in {0xFFFF_FFFD, 0xFFFF_FFFE} {
          var r := LocalFrom(names, cfg, ns, s);
          IngressMarks(names.tag, ns, r, s);
        }
      } else {
        EmptySorted();
      }
    case GlobalTable =>
      EgressUniform(names, cfg, t.global);
  }

  lemma EmptySorted()
    ensures Sorted([])
  {
  }

  /** The rules of the tables that take part in a lookup are those of its table. */
  lemma PartOf(names: Names, cfg: Config, t: Tables, s: SessionRule, lookup: Lookup)
    requires IsTablesFor(names, cfg, t)
    ensures InTables(t, s) && TakesPart(s, lookup) <==> s in TableFor(t, lookup)
  {
    hide InLocal, InGlobal, Sorted;
    if s in t.global { GlobalMarks(names, cfg, s); }
    forall ns | ns in t.local && s in t.local[ns] ensures s.scope == 2 && s.appnsIndex == ns {
      LocalMarks(names, cfg, ns, s);
    }
  }

  lemma HitsTakesPart(s: SessionRule, c: Conn)
    requires SessionHits(s, c)
    ensures TakesPart(s, c.lookup)
  {
  }

  /** No rule of somebody else matches the connection. */
  ghost predicate NoForeignHits(installed: set<SessionRule>, c: Conn) {
    forall f :: f in installed && !VppTcpRenderer.Ours(f) ==> !SessionHits(f, c)
  }

  /** When VPP is in step with the tables, it decides a connection as the one table of its lookup
      does, although it holds the rules of all tables together. */
  lemma InstalledDecides(names: Names, cfg: Config, t: Tables, installed: set<SessionRule>, c: Conn)
    requires VppTcpRenderer.Synced(names, cfg, t, installed) && NoForeignHits(installed, c)
    ensures VppPermits(installed, c) <==> TablePermits(TableFor(t, c.lookup), c)
  {
    hide IsTablesFor, InTables, SessionHits, TablePermits, PermitWins, VoteOf, Uniform, Sorted, TakesPart, TableFor;
    var table := TableFor(t, c.lookup);
    forall s | SessionHits(s, c) ensures s in installed <==> s in table {
      PartOf(names, cfg, t, s, c.lookup);
      HitsTakesPart(s, c);
    }
    assert InstalledVotes(installed, c) == SessionVotes(table, c);
    TableForUniform(names, cfg, t, c.lookup);
    match c.lookup
    case LocalTable(ns) => SortedLookup(table, ns, 2, c);
    case GlobalTable => SortedLookup(table, 0, 1, c);
  }

  /** IDs tell the rules of the policies apart, and the policies are not starving. */
  predicate Clear(text: RuleIDs.NetText, cache: PodCache, dir: MatchType, policies: seq<ContivPolicy>, p: Packet) {
    && ConfiguratorMeaning.Told(text, cache, dir, policies)
    && !Starving(cache, dir, Configurator.SeenPolicies(policies), p)
  }

  lemma TablesAre(names: Names, cfg: Config, t: Tables, ns: uint32)
    requires IsTablesFor(names, cfg, t)
    ensures IsGlobalTable(names, cfg, TableFor(t, GlobalTable))
    ensures ns in cfg ==> IsLocalTable(names, cfg, ns, TableFor(t, LocalTable(ns)))
  {
    hide IsGlobalTable, IsLocalTable;
  }

  /** A connection that a pod opens is permitted by VPP only if the policies of both ends permit it.
      If IDs tell their rules apart and the egress policies are not starving, it is permitted
      exactly then. */
  lemma OpenedMeaning(text: RuleIDs.NetText, cache: PodCache, policies: map<uint32, seq<ContivPolicy>>, names: Names,
                      cfg: Config, t: Tables, installed: set<SessionRule>, ns: uint32, p: Packet)
    requires Configured(text, cache, policies, cfg) && ns in cfg && VppTcpRenderer.Synced(names, cfg, t, installed)
    requires p.src == cfg[ns].ip && IsAddress(p.dest)
    requires NoForeignHits(installed, Outgoing(ns, p.src, p.dest, p.proto, p.destPort))
    ensures var permits := VppPermits(installed, Outgoing(ns, p.src, p.dest, p.proto, p.destPort));
            && (permits ==> PoliciesPermit(cache, policies, cfg, ns, p))
            && (EndsTold(text, cache, policies, cfg, ns, p) && Clear(text, cache, MatchEgress, policies[ns], p) ==>
                  (permits <==> PoliciesPermit(cache, policies, cfg, ns, p)))
  {
    hide Configured, IsTablesFor, VppPermits, NoForeignHits, TablePermits, IsLocalTable, PoliciesPermit, EndsTold, Starving, TableFor,
         HasOwnRules, Configurator.SeenPolicies, InTables;
    var c := Outgoing(ns, p.src, p.dest, p.proto, p.destPort);
    InstalledDecides(names, cfg, t, installed, c);
    TablesAre(names, cfg, t, ns);
    ConfiguredKeys(text, cache, policies, cfg);
    LocalTableMeaning(text, cache, policies, names, cfg, ns, TableFor(t, LocalTable(ns)), p.src, p);
  }

  /** A connection that arrives at a pod is permitted by VPP only if the ingress policies of the pod
      permit it, and exactly then if IDs tell its rules apart and the policies are not starving. */
  lemma ArrivedMeaning(text: RuleIDs.NetText, cache: PodCache, policies: map<uint32, seq<ContivPolicy>>, names: Names,
                       cfg: Config, t: Tables, installed: set<SessionRule>, b: uint32, p: Packet)
    requires Configured(text, cache, policies, cfg) && b in cfg && Isolated(cfg, b) && VppTcpRenderer.Synced(names, cfg, t, installed)
    requires p.dest == cfg[b].ip && |p.src| == |p.dest|
    requires NoForeignHits(installed, Incoming(cfg[b].ip, p.src, p.proto, p.srcPort, p.destPort))
    ensures var permits := VppPermits(installed, Incoming(cfg[b].ip, p.src, p.proto, p.srcPort, p.destPort));
            var denied := PolicyVerdict(cache, MatchIngress, policies[b], p) == Denied;
            && (permits ==> !denied)
            && (Clear(text, cache, MatchIngress, policies[b], p) ==> (permits <==> !denied))
  {
    hide Configured, IsTablesFor, VppPermits, NoForeignHits, TablePermits, IsGlobalTable, PolicyVerdict, Starving, TableFor, Isolated,
         Configurator.SeenPolicies, InTables, ConfiguratorMeaning.Told;
    var c := Incoming(cfg[b].ip, p.src, p.proto, p.srcPort, p.destPort);
    InstalledDecides(names, cfg, t, installed, c);
    TablesAre(names, cfg, t, b);
    ConfiguredKeys(text, cache, policies, cfg);
    GlobalTableMeaning(text, cache, policies, names, cfg, b, TableFor(t, GlobalTable), p);
  }

  lemma ConfiguredKeys(text: RuleIDs.NetText, cache: PodCache, policies: map<uint32, seq<ContivPolicy>>, cfg: Config)
    requires Configured(text, cache, policies, cfg)
    ensures cfg.Keys == policies.Keys
  {
    hide ListOf;
  }
}
