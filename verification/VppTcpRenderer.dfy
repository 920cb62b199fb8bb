/** The VPPTCP renderer (plugins/policy/renderer/vpptcp/vpptcp_renderer.go): batched requests to
    VPP and the agreement between VPP and the cache over whole runs of transactions. */
module VppTcpRenderer {
  import opened Base
  import opened SessionRules
  import opened CombinedRules
  import opened TableSpec
  import opened SessionCache

  // ----- VPP -----

  const TAG_PREFIX := "contiv/vpp-policy-"

  /** Rules installed by this renderer are recognised by the prefix of their tag. */
  predicate Ours(r: SessionRule) {
    TAG_PREFIX <= r.tag
  }

  datatype Request = Del(rule: SessionRule) | Add(rule: SessionRule)

  type Installed = set<SessionRule>

  predicate HasTwin(installed: Installed, r: SessionRule) {
    exists x :: x in installed && EqualUpToTag(x, r)
  }

  predicate TagUsed(installed: Installed, tag: string) {
    exists x :: x in installed && x.tag == tag
  }

  /** VPP removes exactly the given rule, and refuses to add a rule that is already installed up
      to its tag or whose tag is in use; tags carry the prefix
      (mock/sessionrules/sessionrules_mock.go). */
  predicate Accepts(installed: Installed, req: Request) {
    && Ours(req.rule)
    && if req.Del? then req.rule in installed
       else !HasTwin(installed, req.rule) && !TagUsed(installed, req.rule.tag)
  }

  function Apply(installed: Installed, req: Request): Installed {
    if !Accepts(installed, req) then installed
    else if req.Del? then installed - {req.rule}
    else installed + {req.rule}
  }

  function ApplyAll(installed: Installed, reqs: seq<Request>): Installed {
    if reqs == [] then installed else Apply(ApplyAll(installed, reqs[..|reqs| - 1]), reqs[|reqs| - 1])
  }

  predicate AcceptedAt(installed: Installed, reqs: seq<Request>, k: nat)
    requires k < |reqs|
  {
    Accepts(ApplyAll(installed, reqs[..k]), reqs[k])
  }

  ghost predicate AllAccepted(installed: Installed, reqs: seq<Request>) {
    forall k :: 0 <= k < |reqs| ==> AcceptedAt(installed, reqs, k)
  }

  lemma ApplyStep(installed: Installed, reqs: seq<Request>, k: nat)
    requires k < |reqs|
    ensures ApplyAll(installed, reqs[..k + 1]) == Apply(ApplyAll(installed, reqs[..k]), reqs[k])
  {
    hide Apply;
    assert reqs[..k + 1][..k] == reqs[..k];
  }

  /** The channel to VPP: requests are processed in order, replies wait until they are read,
      and no more than capacity of them fit. */
  class VppChannel {
    const capacity: nat
    var installed: Installed
    var replies: seq<bool>     // retval == 0

    constructor (capacity: nat, installed: Installed)
      ensures this.capacity == capacity && this.installed == installed && replies == []
    {
      this.capacity := capacity;
      this.installed := installed;
      replies := [];
    }

    method Send(req: Request)
      requires |replies| < capacity
      modifies this
      ensures installed == Apply(old(installed), req)
      ensures replies == old(replies) + [Accepts(old(installed), req)]
    {
      replies := replies + [Accepts(installed, req)];
      installed := Apply(installed, req);
    }

    method Receive() returns (ok: bool)
      requires replies != []
      modifies this`replies
      ensures ok == old(replies)[0] && replies == old(replies)[1..]
    {
      ok := replies[0];
      replies := replies[1..];
    }
  }

  // ----- updateRules -----

  function Deletions(rules: seq<SessionRule>): seq<Request> {
    seq(|rules|, i requires 0 <= i < |rules| => Del(rules[i]))
  }

  function Additions(rules: seq<SessionRule>): seq<Request> {
    seq(|rules|, i requires 0 <= i < |rules| => Add(rules[i]))
  }

  /** Replies that wait for the requests lo up to hi. */
  ghost predicate Awaiting(replies: seq<bool>, installed: Installed, reqs: seq<Request>, lo: nat, hi: nat) {
    && lo <= hi <= |reqs| && |replies| == hi - lo
    && forall k :: 0 <= k < hi - lo ==> (replies[k] <==> AcceptedAt(installed, reqs, lo + k))
  }

  /** Of the requests from i on, request k is the first that VPP refuses. */
  ghost predicate FirstRefused(installed: Installed, reqs: seq<Request>, i: nat, k: nat) {
    && i <= k < |reqs| && !AcceptedAt(installed, reqs, k)
    && forall l :: i <= l < k ==> AcceptedAt(installed, reqs, l)
  }

  /** Where the batch of request k ends. */
  function BatchEnd(n: nat, size: nat, k: nat): nat
    requires size > 0
  {
    var end := (k / size + 1) * size;
    if end < n then end else n
  }

  lemma BatchEndIs(n: nat, size: nat, b: nat, k: nat)
    requires size > 0 && size * b <= k < size * b + size
    ensures BatchEnd(n, size, k) == if size * b + size < n then size * b + size else n
  {
    ModIs(k, size, b, k - size * b);
    assert (b + 1) * size == size * b + size;
  }

  /** Sends at most one channel buffer of requests, starting at i. */
  method SendBatch(vpp: VppChannel, reqs: seq<Request>, i: nat, ghost start: Installed) returns (j: nat)
    requires i < |reqs| && vpp.replies == [] && vpp.installed == ApplyAll(start, reqs[..i]) && vpp.capacity > 0
    modifies vpp
    ensures i + j == if |reqs| - i < vpp.capacity then |reqs| else i + vpp.capacity
    ensures vpp.installed == ApplyAll(start, reqs[..i + j])
    ensures Awaiting(vpp.replies, start, reqs, i, i + j)
  {
    hide Apply, Accepts, ApplyAll;
    j := 0;
    while i + j < |reqs| && j < vpp.capacity
      invariant j <= vpp.capacity && i + j <= |reqs|
      invariant vpp.installed == ApplyAll(start, reqs[..i + j])
      invariant Awaiting(vpp.replies, start, reqs, i, i + j)
    {
      ApplyStep(start, reqs, i + j);
      vpp.Send(reqs[i + j]);
      j := j + 1;
    }
  }

  method ReceiveBatch(vpp: VppChannel, reqs: seq<Request>, i: nat, j0: nat, ghost start: Installed) returns (ok: bool)
    requires Awaiting(vpp.replies, start, reqs, i, i + j0)
    modifies vpp`replies
    ensures ok <==> forall k :: i <= k < i + j0 ==> AcceptedAt(start, reqs, k)
    ensures ok ==> vpp.replies == []
    ensures !ok ==> exists k :: i <= k < i + j0 && FirstRefused(start, reqs, i, k) && |vpp.replies| == i + j0 - k - 1
  {
    hide Apply, Accepts, ApplyAll, AcceptedAt;
    var j := j0;
    while j > 0
      invariant j <= j0 && Awaiting(vpp.replies, start, reqs, i + j0 - j, i + j0)
      invariant forall k :: i <= k < i + j0 - j ==> AcceptedAt(start, reqs, k)
    {
      ghost var replies := vpp.replies;
      var retval := vpp.Receive();
      assert retval <==> AcceptedAt(start, reqs, i + j0 - j);
      if !retval {
        assert FirstRefused(start, reqs, i, i + j0 - j);
        return false;
      }
      forall k | 0 <= k < |vpp.replies| ensures vpp.replies[k] <==> AcceptedAt(start, reqs, i + j0 - j + 1 + k) {
        assert vpp.replies[k] == replies[k + 1];
        assert replies[k + 1] <==> AcceptedAt(start, reqs, i + j0 - j + (k + 1));
      }
      j := j - 1;
    }
    return true;
  }

  /** Request k is the first that VPP refuses: the rest of its batch was sent as well, and nothing
      after it; the replies to that rest were not read. */
  ghost predicate Abandoned(start: Installed, reqs: seq<Request>, k: nat, size: nat, installed: Installed, replies: seq<bool>) {
    && size > 0 && FirstRefused(start, reqs, 0, k)
    && var end := BatchEnd(|reqs|, size, k);
       k < end <= |reqs| && installed == ApplyAll(start, reqs[..end]) && |replies| == end - k - 1
  }

  /** The deletions come before the additions. */
  method MakeRequests(add: seq<SessionRule>, remove: seq<SessionRule>) returns (requests: seq<Request>)
    ensures requests == Deletions(remove) + Additions(add)
  {
    requests := [];
    for k := 0 to |remove|
      invariant requests == Deletions(remove[..k])
    {
      requests := requests + [Del(remove[k])];
    }
    assert remove[..|remove|] == remove;
    for k := 0 to |add|
      invariant requests == Deletions(remove) + Additions(add[..k])
    {
      requests := requests + [Add(add[k])];
    }
    assert add[..|add|] == add;
  }

  /** The loop over the batches. */
  method SendAll(vpp: VppChannel, requests: seq<Request>) returns (ok: bool)
    requires vpp.replies == [] && vpp.capacity > 0
    modifies vpp
    ensures ok <==> AllAccepted(old(vpp.installed), requests)
    ensures ok ==> vpp.installed == ApplyAll(old(vpp.installed), requests) && vpp.replies == []
    ensures !ok ==> exists k :: Abandoned(old(vpp.installed), requests, k, vpp.capacity, vpp.installed, vpp.replies)
  {
    hide Apply, Accepts, ApplyAll, AcceptedAt, Awaiting, BatchEnd;
    ghost var start := vpp.installed;
    NothingApplied(start);
    var i := 0;
    ghost var b := 0;
    assert requests[..0] == [];
    while i < |requests|
      invariant 0 <= i <= |requests| && vpp.replies == [] && (i == vpp.capacity * b || i == |requests|)
      invariant vpp.installed == ApplyAll(start, requests[..i])
      invariant forall k :: 0 <= k < i ==> AcceptedAt(start, requests, k)
    {
      var j := SendBatch(vpp, requests, i, start);
      var received := ReceiveBatch(vpp, requests, i, j, start);
      if !received {
        ghost var k :| i <= k < i + j && FirstRefused(start, requests, i, k) && |vpp.replies| == i + j - k - 1;
        BatchEndIs(|requests|, vpp.capacity, b, k);
        assert Abandoned(start, requests, k, vpp.capacity, vpp.installed, vpp.replies);
        return false;
      }
      NextBatch(vpp.capacity, b);
      i, b := i + j, b + 1;
    }
    assert requests[..i] == requests;
    return true;
  }

  lemma NextBatch(size: nat, b: nat)
    ensures size * (b + 1) == size * b + size
  {
  }

  /** updateRules: all deletions, then all additions, in batches that never overflow the
      channel; it succeeds if and only if VPP accepts every request, and gives up after the batch
      of the first refused one. */
  method UpdateRules(vpp: VppChannel, add: seq<SessionRule>, remove: seq<SessionRule>) returns (ok: bool)
    requires vpp.replies == [] && vpp.capacity > 0
    modifies vpp
    ensures ok <==> AllAccepted(old(vpp.installed), Deletions(remove) + Additions(add))
    ensures ok ==> vpp.installed == ApplyAll(old(vpp.installed), Deletions(remove) + Additions(add)) && vpp.replies == []
    ensures !ok ==> exists k :: Abandoned(old(vpp.installed), Deletions(remove) + Additions(add), k, vpp.capacity, vpp.installed, vpp.replies)
  {
    hide *;
    var requests := MakeRequests(add, remove);
    ok := SendAll(vpp, requests);
  }

  lemma NothingApplied(installed: Installed)
    ensures ApplyAll(installed, []) == installed
  {
  }

  // ----- Deletions and additions computed by the cache are accepted -----

  function ToSet(rules: seq<SessionRule>): set<SessionRule> {
    set r | r in rules
  }

  /** Nothing installed is equal to another rule up to the tag. */
  ghost predicate Twinless(installed: Installed) {
    forall x, y :: x in installed && y in installed && EqualUpToTag(x, y) ==> x == y
  }

  /** Every request keeps VPP without twins, and leaves the rules of others alone. */
  lemma ApplyKeeps(installed: Installed, req: Request)
    ensures Twinless(installed) ==> Twinless(Apply(installed, req))
    ensures forall f :: !Ours(f) ==> (f in Apply(installed, req) <==> f in installed)
  {
    hide EqualUpToTag, TagUsed;
    forall x, y | x in installed ensures EqualUpToTag(x, y) <==> EqualUpToTag(y, x) {
      TwinSymmetry(x, y);
    }
  }

  lemma TwinSymmetry(x: SessionRule, y: SessionRule)
    ensures EqualUpToTag(x, y) <==> EqualUpToTag(y, x)
  {
  }

  /** Whatever is requested of a VPP without twins, it never holds two rules that are equal up to
      the tag, and the rules of others stay as they are. */
  lemma {:induction false} RequestsKeep(installed: Installed, reqs: seq<Request>)
    ensures Twinless(installed) ==> Twinless(ApplyAll(installed, reqs))
    ensures forall f :: !Ours(f) ==> (f in ApplyAll(installed, reqs) <==> f in installed)
  {
    hide Twinless, Apply, Ours;
    if reqs != [] {
      RequestsKeep(installed, reqs[..|reqs| - 1]);
      ApplyKeeps(ApplyAll(installed, reqs[..|reqs| - 1]), reqs[|reqs| - 1]);
    }
  }

  lemma {:induction false} DeletionsAccepted(installed: Installed, remove: seq<SessionRule>, rest: seq<Request>, k: nat)
    requires NoDuplicates(remove) && (forall r :: r in remove ==> r in installed && Ours(r)) && k <= |remove|
    ensures ApplyAll(installed, (Deletions(remove) + rest)[..k]) == installed - ToSet(remove[..k])
    ensures forall i :: 0 <= i < k ==> AcceptedAt(installed, Deletions(remove) + rest, i)
  {
    hide ApplyAll, Apply, Accepts, Ours;
    var reqs := Deletions(remove) + rest;
    if k > 0 {
      DeletionsAccepted(installed, remove, rest, k - 1);
      ApplyStep(installed, reqs, k - 1);
      var r := remove[k - 1];
      assert reqs[k - 1] == Del(r) && r in remove;
      DelOne(installed - ToSet(remove[..k - 1]), r);
      assert remove[..k] == remove[..k - 1] + [r];
      assert ToSet(remove[..k]) == ToSet(remove[..k - 1]) + {r};
    } else {
      assert reqs[..0] == [];
      NothingApplied(installed);
      assert ToSet(remove[..0]) == {};
    }
  }

  lemma DelOne(before: Installed, r: SessionRule)
    requires Ours(r) && r in before
    ensures Accepts(before, Del(r)) && Apply(before, Del(r)) == before - {r}
  {
  }

  predicate Clash(x: SessionRule, y: SessionRule) {
    EqualUpToTag(x, y) || x.tag == y.tag
  }

  ghost predicate NoClash(installed: Installed, add: seq<SessionRule>) {
    && (forall r :: r in add ==> Ours(r))
    && (forall x, r :: x in installed && r in add ==> !Clash(x, r))
    && (forall i, j :: 0 <= i < j < |add| ==> !Clash(add[i], add[j]))
  }

  lemma AddOne(before: Installed, r: SessionRule)
    requires Ours(r) && forall x :: x in before ==> !Clash(x, r)
    ensures Accepts(before, Add(r)) && Apply(before, Add(r)) == before + {r}
  {
    hide EqualUpToTag, Ours;
    assert forall x :: x in before ==> !EqualUpToTag(x, r) && x.tag != r.tag by {
      assert forall x :: x in before ==> !Clash(x, r);
    }
  }

  lemma {:induction false} AdditionsAccepted(installed: Installed, first: seq<Request>, add: seq<SessionRule>, k: nat)
    requires NoClash(ApplyAll(installed, first), add) && k <= |add|
    ensures ApplyAll(installed, (first + Additions(add))[..|first| + k]) == ApplyAll(installed, first) + ToSet(add[..k])
    ensures forall i :: |first| <= i < |first| + k ==> AcceptedAt(installed, first + Additions(add), i)
  {
    hide ApplyAll, Apply, Accepts, Clash, Ours;
    var reqs := first + Additions(add);
    if k > 0 {
      AdditionsAccepted(installed, first, add, k - 1);
      ApplyStep(installed, reqs, |first| + k - 1);
      var r, done := add[k - 1], ApplyAll(installed, first);
      assert reqs[|first| + k - 1] == Add(r) && r in add;
      forall x | x in done + ToSet(add[..k - 1]) ensures !Clash(x, r) {
        if x !in done {
          var i :| 0 <= i < k - 1 && add[..k - 1][i] == x;
          assert add[i] == x;
        }
      }
      AddOne(done + ToSet(add[..k - 1]), r);
      assert add[..k] == add[..k - 1] + [r];
      assert ToSet(add[..k]) == ToSet(add[..k - 1]) + {r};
    } else {
      assert reqs[..|first|] == first;
      assert ToSet(add[..0]) == {};
    }
  }

  lemma UpdateAccepted(installed: Installed, add: seq<SessionRule>, remove: seq<SessionRule>)
    requires NoDuplicates(remove) && forall r :: r in remove ==> r in installed && Ours(r)
    requires NoClash(installed - ToSet(remove), add)
    ensures AllAccepted(installed, Deletions(remove) + Additions(add))
    ensures ApplyAll(installed, Deletions(remove) + Additions(add)) == (installed - ToSet(remove)) + ToSet(add)
  {
    hide ApplyAll, Apply, Accepts, AcceptedAt, NoClash, Ours;
    var first := Deletions(remove);
    assert first + [] == first && first[..|remove|] == first && remove[..|remove|] == remove;
    DeletionsAccepted(installed, remove, [], |remove|);
    DeletionsAccepted(installed, remove, Additions(add), |remove|);
    AdditionsAccepted(installed, first, add, |add|);
    var reqs := first + Additions(add);
    assert reqs[..|first| + |add|] == reqs && add[..|add|] == add;
  }

  // ----- Agreement between VPP and the cache -----

  ghost predicate TagsOurs(names: Names) {
    forall k :: TAG_PREFIX <= names.tag(k)
  }

  /** VPP holds, under our tags, exactly the tables of the configuration. */
  ghost predicate Synced(names: Names, cfg: Config, t: Tables, installed: Installed) {
    && IsTablesFor(names, cfg, t)
    && Twinless(installed)
    && forall r :: r in installed && Ours(r) <==> InTables(t, r)
  }

  /** No rule of somebody else equals, up to the tag, a rule of the tables. */
  ghost predicate NoForeignTwins(installed: Installed, t: Tables) {
    forall f, r :: f in installed && !Ours(f) && InTables(t, r) ==> !EqualUpToTag(f, r)
  }

  /** added and removed turn the rules of ours that are installed into those of the tables. */
  ghost predicate IsUpdate(installed: Installed, t: Tables, add: seq<SessionRule>, remove: seq<SessionRule>) {
    && NoDuplicates(add) && NoDuplicates(remove)
    && (forall r :: r in add <==> InTables(t, r) && !(r in installed && Ours(r)))
    && (forall r :: r in remove <==> r in installed && Ours(r) && !InTables(t, r))
  }

  lemma UpdateHasNoClash(names: Names, cfg: Config, installed: Installed, t: Tables, add: seq<SessionRule>, remove: seq<SessionRule>)
    requires TagsOurs(names) && GoodIDs(names, cfg) && IsTablesFor(names, cfg, t)
    requires IsUpdate(installed, t, add, remove) && NoForeignTwins(installed, t)
    ensures NoClash(installed - ToSet(remove), add)
  {
    hide InTables, EqualUpToTag, WellPlaced, IsTablesFor, GoodIDs, Ours, NoForeignTwins;
    TablesOurs(names, cfg, t);
    TablesForPlaced(names, cfg, t);
    forall x, r | x in installed - ToSet(remove) && r in add ensures !Clash(x, r) {
      if Ours(x) {
        NoTwinsUnless(t, x, r);
        TagsDiffer(names, cfg, t, x, r);
      } else {
        ForeignDiffers(installed, t, x, r);
      }
    }
    forall i, j | 0 <= i < j < |add| ensures !Clash(add[i], add[j]) {
      assert add[i] in add && add[j] in add;
      NoTwinsUnless(t, add[i], add[j]);
      TagsDiffer(names, cfg, t, add[i], add[j]);
    }
  }

  lemma TablesOurs(names: Names, cfg: Config, t: Tables)
    requires TagsOurs(names) && IsTablesFor(names, cfg, t)
    ensures forall r :: InTables(t, r) ==> Ours(r)
  {
    hide InTables, IsTablesFor;
    TablesForPlaced(names, cfg, t);
    forall r | InTables(t, r) ensures Ours(r) {
      assert Tagged(names, r);
    }
  }

  lemma TagsDiffer(names: Names, cfg: Config, t: Tables, x: SessionRule, y: SessionRule)
    requires GoodIDs(names, cfg) && IsTablesFor(names, cfg, t) && InTables(t, x) && InTables(t, y)
    ensures x.tag == y.tag ==> x == y
  {
    hide InTables, IsTablesFor, GoodIDs;
    if x.tag == y.tag { TableTagsUnique(names, cfg, t, x, y); }
  }

  lemma ForeignDiffers(installed: Installed, t: Tables, f: SessionRule, r: SessionRule)
    requires NoForeignTwins(installed, t) && f in installed && !Ours(f) && InTables(t, r) && Ours(r)
    ensures !Clash(f, r)
  {
    hide InTables, EqualUpToTag;
  }

  lemma NoTwinsUnless(t: Tables, x: SessionRule, y: SessionRule)
    requires WellPlaced(t) && InTables(t, x) && InTables(t, y)
    ensures EqualUpToTag(x, y) ==> x == y
  {
    if EqualUpToTag(x, y) { NoTwinsInTables(t, x, y); }
  }

  /** Deleting and then adding the differences is accepted request by request, brings VPP in step
      with the tables, and leaves the rules of others alone. */
  lemma UpdateSyncs(names: Names, cfg: Config, t: Tables, installed: Installed, add: seq<SessionRule>, remove: seq<SessionRule>)
    requires TagsOurs(names) && GoodIDs(names, cfg) && IsTablesFor(names, cfg, t) && Twinless(installed)
    requires NoForeignTwins(installed, t) && IsUpdate(installed, t, add, remove)
    ensures AllAccepted(installed, Deletions(remove) + Additions(add))
    ensures var after := ApplyAll(installed, Deletions(remove) + Additions(add));
            && Synced(names, cfg, t, after)
            && forall r :: !Ours(r) ==> (r in after <==> r in installed)
  {
    hide InTables, EqualUpToTag, IsTablesFor, AllAccepted, ApplyAll, NoClash, GoodIDs, Ours, Twinless;
    TablesOurs(names, cfg, t);
    UpdateHasNoClash(names, cfg, installed, t, add, remove);
    UpdateAccepted(installed, add, remove);
    RequestsKeep(installed, Deletions(remove) + Additions(add));
  }

  /** VPP accepts the whole update if and only if no rule of somebody else equals, up to the tag, a
      rule of the tables. */
  lemma UpdateAcceptedIff(names: Names, cfg: Config, t: Tables, installed: Installed, add: seq<SessionRule>, remove: seq<SessionRule>)
    requires TagsOurs(names) && GoodIDs(names, cfg) && IsTablesFor(names, cfg, t) && Twinless(installed)
    requires IsUpdate(installed, t, add, remove)
    ensures AllAccepted(installed, Deletions(remove) + Additions(add)) <==> NoForeignTwins(installed, t)
  {
    hide InTables, EqualUpToTag, IsTablesFor, AllAccepted, ApplyAll, GoodIDs, Ours;
    if NoForeignTwins(installed, t) {
      UpdateSyncs(names, cfg, t, installed, add, remove);
    } else {
      var f, r :| f in installed && !Ours(f) && InTables(t, r) && EqualUpToTag(f, r);
      TablesOurs(names, cfg, t);
      assert r !in installed;
      var i :| 0 <= i < |add| && add[i] == r;
      ForeignTwinRefused(installed, add, remove, f, i);
    }
  }

  lemma ForeignTwinRefused(installed: Installed, add: seq<SessionRule>, remove: seq<SessionRule>, f: SessionRule, i: nat)
    requires i < |add| && f in installed && !Ours(f) && EqualUpToTag(f, add[i])
    ensures !AllAccepted(installed, Deletions(remove) + Additions(add))
  {
    hide EqualUpToTag, ApplyAll, Ours;
    var reqs := Deletions(remove) + Additions(add);
    var k := |remove| + i;
    RequestsKeep(installed, reqs[..k]);
    assert reqs[k] == Add(add[i]);
    assert HasTwin(ApplyAll(installed, reqs[..k]), add[i]);
    assert !AcceptedAt(installed, reqs, k);
  }

  // ----- Runs of transactions -----

  datatype Txn = Txn(resync: bool, updates: Config)

  /** Without resync, namespaces that a transaction does not mention keep their rules. */
  function NextConfig(cfg: Config, txn: Txn): Config {
    if txn.resync then txn.updates else cfg + txn.updates
  }

  datatype State = State(cfg: Config, tables: Tables, installed: Installed)

  /** One successful transaction: Changes against the cache or the dump, then updateRules. */
  ghost predicate Step(names: Names, s: State, txn: Txn, s': State, add: seq<SessionRule>, remove: seq<SessionRule>) {
    && s'.cfg == NextConfig(s.cfg, txn)
    && IsTablesFor(names, s'.cfg, s'.tables)
    && NoDuplicates(add) && NoDuplicates(remove)
    && (forall r :: r in add <==> InTables(s'.tables, r) && !InBase(s, txn, r))
    && (forall r :: r in remove <==> InBase(s, txn, r) && !InTables(s'.tables, r))
    && s'.installed == ApplyAll(s.installed, Deletions(remove) + Additions(add))
  }

  ghost predicate InBase(s: State, txn: Txn, r: SessionRule) {
    if txn.resync then r in s.installed && Ours(r) else InTables(s.tables, r)
  }

  /** Every transaction keeps VPP in step with the configuration, and a resync gets it there
      from any installed state. */
  lemma StepSyncs(names: Names, s: State, txn: Txn, s': State, add: seq<SessionRule>, remove: seq<SessionRule>)
    requires TagsOurs(names) && GoodIDs(names, s'.cfg) && Step(names, s, txn, s', add, remove)
    requires txn.resync || Synced(names, s.cfg, s.tables, s.installed)
    requires Twinless(s.installed) && NoForeignTwins(s.installed, s'.tables)
    ensures AllAccepted(s.installed, Deletions(remove) + Additions(add))
    ensures Synced(names, s'.cfg, s'.tables, s'.installed)
    ensures forall r :: !Ours(r) ==> (r in s'.installed <==> r in s.installed)
  {
    hide InTables, IsTablesFor, AllAccepted, ApplyAll, NoForeignTwins, GoodIDs;
    assert IsUpdate(s.installed, s'.tables, add, remove);
    UpdateSyncs(names, s'.cfg, s'.tables, s.installed, add, remove);
  }

  /** A run that starts with a resync, or in step, from the given installed rules. */
  ghost predicate Run(names: Names, states: seq<State>, txns: seq<Txn>, adds: seq<seq<SessionRule>>, removes: seq<seq<SessionRule>>) {
    && |states| == |txns| + 1 && |adds| == |removes| == |txns|
    && forall i :: 0 <= i < |txns| ==> Step(names, states[i], txns[i], states[i + 1], adds[i], removes[i])
  }

  /** Over any run of transactions, after every one of them VPP's rules of ours equal exactly
      the tables of the current configuration, no request was ever refused, and the rules of
      others never changed. */
  lemma {:induction false} RunSyncs(names: Names, states: seq<State>, txns: seq<Txn>,
                                    adds: seq<seq<SessionRule>>, removes: seq<seq<SessionRule>>, n: nat)
    requires TagsOurs(names) && Run(names, states, txns, adds, removes) && n <= |txns|
    requires Twinless(states[0].installed)
    requires Synced(names, states[0].cfg, states[0].tables, states[0].installed) || (n > 0 && txns[0].resync)
    requires forall i :: 1 <= i <= n ==> NoForeignTwins(states[0].installed, states[i].tables) && GoodIDs(names, states[i].cfg)
    ensures Twinless(states[n].installed)
    ensures n > 0 ==> Synced(names, states[n].cfg, states[n].tables, states[n].installed)
    ensures forall r :: !Ours(r) ==> (r in states[n].installed <==> r in states[0].installed)
    ensures forall i :: 0 <= i < n ==> AllAccepted(states[i].installed, Deletions(removes[i]) + Additions(adds[i]))
  {
    hide Step, AllAccepted, InTables, IsTablesFor, EqualUpToTag, Ours, GoodIDs;
    if n > 0 {
      if n > 1 || Synced(names, states[0].cfg, states[0].tables, states[0].installed) {
        RunSyncs(names, states, txns, adds, removes, n - 1);
      }
      var s, s' := states[n - 1], states[n];
      assert Step(names, s, txns[n - 1], s', adds[n - 1], removes[n - 1]);
      assert NoForeignTwins(states[0].installed, states[n].tables);
      StepSyncs(names, s, txns[n - 1], s', adds[n - 1], removes[n - 1]);
    }
  }

  // ----- RendererTxn -----

  /** dumpRules: the installed rules whose tag carries the prefix of this renderer. */
  method DumpRules(vpp: VppChannel) returns (rules: seq<SessionRule>)
    ensures forall r :: r in rules <==> r in vpp.installed && Ours(r)
  {
    rules := [];
    var todo := vpp.installed;
    while todo != {}
      invariant todo <= vpp.installed
      invariant forall r :: r in rules <==> r in vpp.installed && r !in todo && Ours(r)
      decreases todo
    {
      var r :| r in todo;
      todo := todo - {r};
      if !Ours(r) { continue; }
      rules := rules + [r];
    }
  }

  lemma DumpedFirsts(installed: Installed, dump: seq<SessionRule>)
    requires Twinless(installed) && forall r :: r in dump <==> r in installed && Ours(r)
    ensures forall r :: IsFirst(dump, r) <==> r in installed && Ours(r)
  {
    hide EqualUpToTag, IsFirst;
    assert TwinsEqual(dump);
    forall r ensures IsFirst(dump, r) <==> r in installed && Ours(r) {
      FirstOfDistinct(dump, r);
    }
  }

  class RendererTxn {
    const cacheTxn: SessionRuleCacheTxn
    const vpp: VppChannel

    constructor (cacheTxn: SessionRuleCacheTxn, vpp: VppChannel)
      ensures this.cacheTxn == cacheTxn && this.vpp == vpp
    {
      this.cacheTxn := cacheTxn;
      this.vpp := vpp;
    }

    /** Ready to commit: the cache is in step with VPP, or this is a resync. */
    ghost predicate Ready()
      reads cacheTxn, cacheTxn.tables, cacheTxn.tables.global, cacheTxn.tables.local.Values
      reads cacheTxn.cache, cacheTxn.cache.tables, cacheTxn.cache.tables.global, cacheTxn.cache.tables.local.Values
      reads vpp
    {
      var cache := cacheTxn.cache;
      && cacheTxn.Valid() && DistinctIPs(cacheTxn.config) && cacheTxn.tables != cache.tables
      && TagsOurs(cache.names) && GoodIDs(cache.names, cacheTxn.config)
      && vpp.replies == [] && vpp.capacity > 0 && Twinless(vpp.installed)
      && (!cacheTxn.resync ==>
            cache.tables.Valid() && Synced(cache.names, cache.config, cache.tables.View(), vpp.installed))
      && forall t :: IsTablesFor(cache.names, cacheTxn.config, t) ==> NoForeignTwins(vpp.installed, t)
    }

    method ComputeChanges() returns (added: seq<SessionRule>, removed: seq<SessionRule>)
      requires Ready()
      modifies cacheTxn`upToDateTables, cacheTxn.tables
      ensures cacheTxn.Valid() && cacheTxn.upToDateTables
      ensures IsUpdate(vpp.installed, cacheTxn.tables.View(), added, removed)
    {
      hide InTables, IsTablesFor, NoForeignTwins, EqualUpToTag, NoDuplicates, IsFirst, Sorted, Slots, Values, DistinctIPs,
           Ours, GoodIDs, TagsOurs, Twinless, WellPlaced, SessionTables.View, SessionTables.Valid;
      var dump := DumpRules(vpp);
      DumpedFirsts(vpp.installed, dump);
      if !cacheTxn.resync {
        TablesForPlaced(cacheTxn.cache.names, cacheTxn.cache.config, cacheTxn.cache.tables.View());
      }
      added, removed := cacheTxn.Changes(dump);
    }

    /** Commit succeeds and leaves VPP and the cache in step with the new configuration. */
    method Commit() returns (ok: bool)
      requires Ready()
      modifies cacheTxn`upToDateTables, cacheTxn.tables, cacheTxn.cache, vpp
      ensures ok && vpp.replies == []
      ensures cacheTxn.cache.config == old(cacheTxn.config) && cacheTxn.cache.tables.Valid()
      ensures Synced(cacheTxn.cache.names, cacheTxn.cache.config, cacheTxn.cache.tables.View(), vpp.installed)
      ensures forall r :: !Ours(r) ==> (r in vpp.installed <==> r in old(vpp.installed))
    {
      hide InTables, IsTablesFor, NoForeignTwins, IsUpdate, AllAccepted, ApplyAll, Synced, Twinless, Sorted, Slots,
           Values, DistinctIPs, TagsOurs, GoodIDs;
      ghost var names, before := cacheTxn.cache.names, vpp.installed;
      var added, removed := ComputeChanges();
      ghost var t := cacheTxn.tables.View();
      UpdateSyncs(names, cacheTxn.config, t, before, added, removed);
      if |added| == 0 && |removed| == 0 {
        NothingApplied(before);
        assert Deletions(removed) + Additions(added) == [];
      } else {
        ok := UpdateRules(vpp, added, removed);
        if !ok {
          return;
        }
      }
      cacheTxn.Commit();
      TablesForUnique(names, cacheTxn.config, t, cacheTxn.tables.View());
      ok := true;
    }
  }
}
