/** VPP session rules (plugins/policy/renderer/vpptcp/cache/cache_api.go) and the ordered rule
    list with its merge-diff (plugins/policy/renderer/vpptcp/cache/cache_impl.go). */
module SessionRules {
  import opened Base
  import opened Net
  import opened Rules

  /** A 16-byte array; an IPv4 address occupies its first four bytes. */
  type Raw = b: Bits | |b| == 128 witness Zeros(128)

  datatype SessionRule = SessionRule(
    transportProto: uint8,
    isIP4: uint8,
    lclIP: Raw,
    lclPlen: uint8,
    rmtIP: Raw,
    rmtPlen: uint8,
    lclPort: uint16,
    rmtPort: uint16,
    actionIndex: uint32,
    appnsIndex: uint32,
    scope: uint8,
    tag: string)

  const RULE_SCOPE_GLOBAL: uint8 := 1
  const RULE_SCOPE_LOCAL: uint8 := 2
  const RULE_ACTION_DENY: uint32 := 0xFFFF_FFFE
  const RULE_ACTION_ALLOW: uint32 := 0xFFFF_FFFD
  const RULE_PROTO_TCP: uint8 := 0
  const RULE_PROTO_UDP: uint8 := 1

  // ----- Order -----

  /** utils.CompareIPNetsBytes */
  function CompareIPNetsBytes(aPlen: uint8, aIP: Raw, bPlen: uint8, bIP: Raw): int {
    var prefixOrder := CompareInts(aPlen, bPlen);
    if prefixOrder != 0 then prefixOrder else Lex(BitKey, aIP, bIP)
  }

  function Then(first: int, second: int): int {
    if first != 0 then first else second
  }

  function CompareScopes(a: SessionRule, b: SessionRule): int {
    Then(CompareInts(a.appnsIndex, b.appnsIndex),
    Then(CompareInts(a.scope, b.scope),
    Then(CompareInts(a.actionIndex, b.actionIndex),
         CompareInts(a.isIP4, b.isIP4))))
  }

  function CompareNetworks(a: SessionRule, b: SessionRule): int {
    Then(CompareIPNetsBytes(a.lclPlen, a.lclIP, b.lclPlen, b.lclIP),
         CompareIPNetsBytes(a.rmtPlen, a.rmtIP, b.rmtPlen, b.rmtIP))
  }

  function ComparePorts(a: SessionRule, b: SessionRule): int {
    Then(CompareInts(a.transportProto, b.transportProto),
    Then(CompareInts(a.lclPort, b.lclPort),
         CompareInts(a.rmtPort, b.rmtPort)))
  }

  /** SessionRule.Compare */
  function CompareSession(a: SessionRule, b: SessionRule, compareTag: bool): int {
    Then(CompareScopes(a, b),
    Then(CompareNetworks(a, b),
    Then(ComparePorts(a, b),
         if compareTag then Lex(CharKey, a.tag, b.tag) else 0)))
  }

  predicate EqualUpToTag(a: SessionRule, b: SessionRule) {
    a.(tag := "") == b.(tag := "")
  }

  lemma IPNetsBytesOrder(aPlen: uint8, aIP: Raw, bPlen: uint8, bIP: Raw, cPlen: uint8, cIP: Raw)
    ensures CompareIPNetsBytes(aPlen, aIP, bPlen, bIP) == -CompareIPNetsBytes(bPlen, bIP, aPlen, aIP)
    ensures CompareIPNetsBytes(aPlen, aIP, bPlen, bIP) == 0 <==> aPlen == bPlen && aIP == bIP
    ensures CompareIPNetsBytes(aPlen, aIP, bPlen, bIP) <= 0 && CompareIPNetsBytes(bPlen, bIP, cPlen, cIP) <= 0
            ==> CompareIPNetsBytes(aPlen, aIP, cPlen, cIP) <= 0
  {
    KeysInjective();
    LexOrder(BitKey, aIP, bIP, cIP);
  }

  lemma NetworksOrder(a: SessionRule, b: SessionRule, c: SessionRule)
    ensures CompareNetworks(a, b) == -CompareNetworks(b, a)
    ensures CompareNetworks(a, b) == 0 <==>
            a.lclPlen == b.lclPlen && a.lclIP == b.lclIP && a.rmtPlen == b.rmtPlen && a.rmtIP == b.rmtIP
    ensures CompareNetworks(a, b) <= 0 && CompareNetworks(b, c) <= 0 ==> CompareNetworks(a, c) <= 0
  {
    IPNetsBytesOrder(a.lclPlen, a.lclIP, b.lclPlen, b.lclIP, c.lclPlen, c.lclIP);
    IPNetsBytesOrder(b.lclPlen, b.lclIP, c.lclPlen, c.lclIP, a.lclPlen, a.lclIP);
    IPNetsBytesOrder(c.lclPlen, c.lclIP, a.lclPlen, a.lclIP, b.lclPlen, b.lclIP);
    IPNetsBytesOrder(a.rmtPlen, a.rmtIP, b.rmtPlen, b.rmtIP, c.rmtPlen, c.rmtIP);
  }

  lemma ScopesOrder(a: SessionRule, b: SessionRule, c: SessionRule)
    ensures CompareScopes(a, b) == -CompareScopes(b, a)
    ensures CompareScopes(a, b) == 0 <==>
            a.appnsIndex == b.appnsIndex && a.scope == b.scope && a.actionIndex == b.actionIndex && a.isIP4 == b.isIP4
    ensures CompareScopes(a, b) <= 0 && CompareScopes(b, c) <= 0 ==> CompareScopes(a, c) <= 0
  {
  }

  lemma PortsOrder(a: SessionRule, b: SessionRule, c: SessionRule)
    ensures ComparePorts(a, b) == -ComparePorts(b, a)
    ensures ComparePorts(a, b) == 0 <==>
            a.transportProto == b.transportProto && a.lclPort == b.lclPort && a.rmtPort == b.rmtPort
    ensures ComparePorts(a, b) <= 0 && ComparePorts(b, c) <= 0 ==> ComparePorts(a, c) <= 0
  {
  }

  /** Compare is a total preorder whose classes are the rules equal up to their tag; with
      tags compared it is a total order refining it. */
  lemma SessionSymmetry(a: SessionRule, b: SessionRule)
    ensures CompareSession(a, b, false) == -CompareSession(b, a, false)
    ensures CompareSession(a, b, true) == -CompareSession(b, a, true)
    ensures CompareSession(a, b, false) == 0 <==> EqualUpToTag(a, b)
    ensures CompareSession(a, b, true) == 0 <==> a == b
    ensures CompareSession(a, b, false) != 0 ==> CompareSession(a, b, true) == CompareSession(a, b, false)
  {
    KeysInjective();
    LexOrder(CharKey, a.tag, b.tag, a.tag);
    ScopesOrder(a, b, a);
    NetworksOrder(a, b, a);
    PortsOrder(a, b, a);
  }

  /** The order of the fields: namespace, scope, action, family, local and remote network (prefix
      length first), protocol, ports, tag. */
  lemma SessionByField(a: SessionRule, b: SessionRule)
    ensures var c := CompareSession(a, b, true);
            && (a.appnsIndex != b.appnsIndex ==> (c < 0 <==> a.appnsIndex < b.appnsIndex))
            && (a.appnsIndex == b.appnsIndex && a.scope != b.scope ==> (c < 0 <==> a.scope < b.scope))
            && (a.appnsIndex == b.appnsIndex && a.scope == b.scope && a.actionIndex != b.actionIndex ==>
                  (c < 0 <==> a.actionIndex < b.actionIndex))
            && (a.appnsIndex == b.appnsIndex && a.scope == b.scope && a.actionIndex == b.actionIndex && a.isIP4 != b.isIP4 ==>
                  (c < 0 <==> a.isIP4 < b.isIP4))
    ensures var c := CompareSession(a, b, true);
            CompareScopes(a, b) == 0 ==>
              && (a.lclPlen != b.lclPlen ==> (c < 0 <==> a.lclPlen < b.lclPlen))
              && (a.lclPlen == b.lclPlen && a.lclIP != b.lclIP ==> c == Lex(BitKey, a.lclIP, b.lclIP))
              && (a.lclPlen == b.lclPlen && a.lclIP == b.lclIP && a.rmtPlen != b.rmtPlen ==> (c < 0 <==> a.rmtPlen < b.rmtPlen))
              && (a.lclPlen == b.lclPlen && a.lclIP == b.lclIP && a.rmtPlen == b.rmtPlen && a.rmtIP != b.rmtIP ==>
                    c == Lex(BitKey, a.rmtIP, b.rmtIP))
    ensures var c := CompareSession(a, b, true);
            CompareScopes(a, b) == 0 && CompareNetworks(a, b) == 0 ==>
              && (a.transportProto != b.transportProto ==> (c < 0 <==> a.transportProto < b.transportProto))
              && (a.transportProto == b.transportProto && a.lclPort != b.lclPort ==> (c < 0 <==> a.lclPort < b.lclPort))
              && (a.transportProto == b.transportProto && a.lclPort == b.lclPort && a.rmtPort != b.rmtPort ==>
                    (c < 0 <==> a.rmtPort < b.rmtPort))
              && (ComparePorts(a, b) == 0 ==> c == Lex(CharKey, a.tag, b.tag))
  {
    KeysInjective();
    LexZero(BitKey, a.lclIP, b.lclIP);
    LexZero(BitKey, a.rmtIP, b.rmtIP);
  }

  lemma SessionTransitive(a: SessionRule, b: SessionRule, c: SessionRule, compareTag: bool)
    requires CompareSession(a, b, compareTag) <= 0 && CompareSession(b, c, compareTag) <= 0
    ensures CompareSession(a, c, compareTag) <= 0
    ensures CompareSession(a, c, compareTag) == 0 ==>
            CompareSession(a, b, compareTag) == 0 && CompareSession(b, c, compareTag) == 0
  {
    KeysInjective();
    ScopesOrder(a, b, c); ScopesOrder(b, c, a); ScopesOrder(c, a, b);
    NetworksOrder(a, b, c); NetworksOrder(b, c, a); NetworksOrder(c, a, b);
    PortsOrder(a, b, c); PortsOrder(b, c, a); PortsOrder(c, a, b);
    LexOrder(CharKey, a.tag, b.tag, c.tag);
    LexOrder(CharKey, b.tag, c.tag, a.tag);
    LexOrder(CharKey, c.tag, a.tag, b.tag);
  }

  // ----- Ordered lists -----

  ghost predicate Sorted(s: seq<SessionRule>) {
    forall i, j :: 0 <= i < j < |s| ==> CompareSession(s[i], s[j], false) < 0
  }

  function InsertOne(s: seq<SessionRule>, r: SessionRule): seq<SessionRule> {
    if s == [] then [r]
    else
      var order := CompareSession(r, s[0], false);
      if order == 0 then s
      else if order < 0 then [r] + s
      else [s[0]] + InsertOne(s[1..], r)
  }

  function InsertAll(s: seq<SessionRule>, rules: seq<SessionRule>): seq<SessionRule> {
    if rules == [] then s else InsertOne(InsertAll(s, rules[..|rules| - 1]), rules[|rules| - 1])
  }

  ghost predicate Present(s: seq<SessionRule>, r: SessionRule) {
    exists x :: x in s && EqualUpToTag(x, r)
  }

  lemma {:induction false} InsertOneMembers(s: seq<SessionRule>, r: SessionRule)
    requires Sorted(s)
    ensures Sorted(InsertOne(s, r))
    ensures forall x :: x in InsertOne(s, r) <==> x in s || (x == r && !Present(s, r))
  {
    hide CompareSession;
    if s != [] {
      var order := CompareSession(r, s[0], false);
      SessionSymmetry(r, s[0]);
      if order == 0 {
        assert s[0] in s && EqualUpToTag(s[0], r);
      } else if order < 0 {
        forall i | 0 <= i < |s| ensures CompareSession(r, s[i], false) < 0 && !EqualUpToTag(s[i], r) {
          if i > 0 { SessionTransitive(r, s[0], s[i], false); }
          SessionSymmetry(r, s[i]);
          SessionSymmetry(s[i], r);
        }
      } else {
        var rest := InsertOne(s[1..], r);
        InsertOneMembers(s[1..], r);
        assert s == [s[0]] + s[1..];
        forall x | x in rest ensures CompareSession(s[0], x, false) < 0 {
          SessionSymmetry(s[0], r);
          if x in s[1..] {
            var i :| 0 <= i < |s[1..]| && s[1..][i] == x;
            assert x == s[i + 1];
          }
        }
        assert Present(s, r) <==> Present(s[1..], r) by {
          if Present(s, r) {
            var x :| x in s && EqualUpToTag(x, r);
            assert x in s[1..];
          }
          if Present(s[1..], r) {
            var x :| x in s[1..] && EqualUpToTag(x, r);
            assert x in s;
          }
        }
      }
    }
  }

  /** The rules of a sequence that are the first with their value up to the tag. */
  ghost predicate IsFirst(rules: seq<SessionRule>, x: SessionRule) {
    exists i :: 0 <= i < |rules| && rules[i] == x && !Present(rules[..i], x)
  }

  lemma PresentSnoc(s: seq<SessionRule>, x: SessionRule, r: SessionRule)
    ensures Present(s + [x], r) <==> Present(s, r) || EqualUpToTag(x, r)
  {
    if Present(s, r) {
      var y :| y in s && EqualUpToTag(y, r);
      assert y in s + [x];
    }
    assert x in s + [x];
  }

  lemma InsertOnePresent(s: seq<SessionRule>, x: SessionRule, r: SessionRule)
    requires Sorted(s)
    ensures Present(InsertOne(s, x), r) <==> Present(s, r) || EqualUpToTag(x, r)
  {
    hide CompareSession, InsertOne, Sorted;
    var now := InsertOne(s, x);
    InsertOneMembers(s, x);
    if Present(s, r) {
      var y :| y in s && EqualUpToTag(y, r);
      assert y in now;
    } else if EqualUpToTag(x, r) {
      assert forall y :: EqualUpToTag(y, x) ==> EqualUpToTag(y, r);
      assert x in now;
    }
  }

  lemma {:induction false} InsertAllPresent(rules: seq<SessionRule>, r: SessionRule)
    ensures Sorted(InsertAll([], rules))
    ensures Present(InsertAll([], rules), r) <==> Present(rules, r)
  {
    hide CompareSession, InsertOne;
    if rules != [] {
      var init, last := rules[..|rules| - 1], rules[|rules| - 1];
      InsertAllPresent(init, r);
      InsertOneMembers(InsertAll([], init), last);
      InsertOnePresent(InsertAll([], init), last, r);
      PresentSnoc(init, last, r);
      assert rules == init + [last];
    }
  }

  /** Inserting a sequence of rules keeps exactly the first of each class. */
  lemma {:induction false} InsertAllMembers(rules: seq<SessionRule>)
    ensures Sorted(InsertAll([], rules))
    ensures forall x :: x in InsertAll([], rules) <==> IsFirst(rules, x)
  {
    hide CompareSession, InsertOne, EqualUpToTag;
    if rules != [] {
      var init, last := rules[..|rules| - 1], rules[|rules| - 1];
      InsertAllMembers(init);
      InsertAllPresent(init, last);
      var done, now := InsertAll([], init), InsertAll([], rules);
      InsertOneMembers(done, last);
      forall x ensures x in now <==> IsFirst(rules, x) {
        if IsFirst(init, x) {
          var i :| 0 <= i < |init| && init[i] == x && !Present(init[..i], x);
          assert rules[..i] == init[..i];
          assert IsFirst(rules, x);
        }
        if x == last && !Present(init, last) {
          assert rules[|rules| - 1] == x && rules[..|rules| - 1] == init;
          assert IsFirst(rules, x);
        }
        if IsFirst(rules, x) {
          var i :| 0 <= i < |rules| && rules[i] == x && !Present(rules[..i], x);
          if i < |init| {
            assert rules[..i] == init[..i];
            assert IsFirst(init, x);
          }
        }
      }
    }
  }

  lemma TailMember(s: seq<SessionRule>, x: SessionRule)
    requires Sorted(s) && s != []
    ensures x in s[1..] <==> x in s && x != s[0]
  {
    hide CompareSession;
    assert s == [s[0]] + s[1..];
    if x in s[1..] {
      var i :| 0 <= i < |s[1..]| && s[1..][i] == x;
      assert CompareSession(s[0], s[i + 1], false) < 0;
      SessionSymmetry(s[0], x);
    }
  }

  lemma SortedHead(s: seq<SessionRule>, t: seq<SessionRule>)
    requires Sorted(s) && Sorted(t) && s != [] && t != []
    requires s[0] in t && t[0] in s
    ensures s[0] == t[0]
  {
    hide CompareSession;
    var i :| 0 <= i < |t| && t[i] == s[0];
    var j :| 0 <= j < |s| && s[j] == t[0];
    SessionSymmetry(s[0], t[0]);
    assert i > 0 ==> CompareSession(t[0], t[i], false) < 0;
    assert j > 0 ==> CompareSession(s[0], s[j], false) < 0;
  }

  /** A sorted list is determined by its members. */
  lemma {:induction false} SortedUnique(s: seq<SessionRule>, t: seq<SessionRule>)
    requires Sorted(s) && Sorted(t) && forall x :: x in s <==> x in t
    ensures s == t
  {
    hide CompareSession;
    assert s != [] ==> s[0] in s;
    assert t != [] ==> t[0] in t;
    if s != [] {
      SortedHead(s, t);
      forall x ensures x in s[1..] <==> x in t[1..] {
        TailMember(s, x);
        TailMember(t, x);
      }
      SortedUnique(s[1..], t[1..]);
      assert s == [s[0]] + s[1..] && t == [t[0]] + t[1..];
    }
  }

  lemma SortedNoTwins(s: seq<SessionRule>, x: SessionRule, y: SessionRule)
    requires Sorted(s) && x in s && y in s && EqualUpToTag(x, y)
    ensures x == y
  {
    hide CompareSession;
    var i :| 0 <= i < |s| && s[i] == x;
    var j :| 0 <= j < |s| && s[j] == y;
    SessionSymmetry(x, y);
    SessionSymmetry(y, x);
  }

  lemma RemoveSorted(s: seq<SessionRule>, idx: nat)
    requires Sorted(s) && idx < |s|
    ensures Sorted(s[..idx] + s[idx + 1..])
  {
    hide CompareSession;
    var t := s[..idx] + s[idx + 1..];
    assert forall i :: 0 <= i < |t| ==> t[i] == s[if i < idx then i else i + 1];
  }

  // ----- Difference -----

  /** The rules of s that are not in t, in the order of s. */
  function Minus(s: seq<SessionRule>, t: seq<SessionRule>): seq<SessionRule> {
    if s == [] then []
    else Minus(s[..|s| - 1], t) + (if s[|s| - 1] in t then [] else [s[|s| - 1]])
  }

  lemma {:induction false} MinusMembers(s: seq<SessionRule>, t: seq<SessionRule>)
    ensures forall x :: x in Minus(s, t) <==> x in s && x !in t
  {
    if s != [] {
      MinusMembers(s[..|s| - 1], t);
      assert s == s[..|s| - 1] + [s[|s| - 1]];
    }
  }

  lemma MinusStep(s: seq<SessionRule>, t: seq<SessionRule>, i: nat)
    requires i < |s|
    ensures Minus(s[..i + 1], t) == Minus(s[..i], t) + (if s[i] in t then [] else [s[i]])
  {
    assert s[..i + 1][..i] == s[..i];
  }

  // ----- SessionRuleList -----

  /** idx is the first position whose rule is not smaller than r. */
  ghost predicate IsLowerBound(s: seq<SessionRule>, r: SessionRule, idx: nat) {
    && idx <= |s|
    && (forall i :: 0 <= i < idx ==> CompareSession(r, s[i], false) > 0)
    && (forall i :: idx <= i < |s| ==> CompareSession(r, s[i], false) <= 0)
  }

  lemma LowerBoundTail(s: seq<SessionRule>, r: SessionRule, idx: nat)
    requires IsLowerBound(s, r, idx) && idx > 0
    ensures IsLowerBound(s[1..], r, idx - 1)
  {
    hide CompareSession;
    var t := s[1..];
    assert forall i :: 0 <= i < |t| ==> t[i] == s[i + 1];
  }

  lemma InsertOnePast(s: seq<SessionRule>, r: SessionRule)
    requires s != [] && CompareSession(r, s[0], false) > 0
    ensures InsertOne(s, r) == [s[0]] + InsertOne(s[1..], r)
  {
  }

  lemma {:induction false} InsertAt(s: seq<SessionRule>, r: SessionRule, idx: nat)
    requires IsLowerBound(s, r, idx)
    ensures InsertOne(s, r) ==
            if idx < |s| && CompareSession(r, s[idx], false) == 0 then s else s[..idx] + [r] + s[idx..]
  {
    hide CompareSession;
    if idx > 0 {
      var t, inserted := s[1..], InsertOne(s[1..], r);
      LowerBoundTail(s, r, idx);
      InsertAt(t, r, idx - 1);
      InsertOnePast(s, r);
      assert s == [s[0]] + t && (idx < |s| ==> s[idx] == t[idx - 1]);
      if inserted != t {
        assert inserted == t[..idx - 1] + [r] + t[idx - 1..];
        assert s[..idx] == [s[0]] + t[..idx - 1] && s[idx..] == t[idx - 1..];
      }
    }
  }

  lemma InsertSlots(rules: seq<Option<SessionRule>>, n: nat, idx: nat, r: SessionRule)
    requires Slots(rules, n) && Sorted(Values(rules, n)) && IsLowerBound(Values(rules, n), r, idx)
    ensures Sorted(InsertOne(Values(rules, n), r))
    ensures if idx < n && CompareSession(r, rules[idx].value, false) == 0 then
              InsertOne(Values(rules, n), r) == Values(rules, n)
            else
              && Slots(InsertedSlots(rules, n, idx, r), n + 1)
              && Values(InsertedSlots(rules, n, idx, r), n + 1) == InsertOne(Values(rules, n), r)
  {
    hide CompareSession, Sorted, InsertOne;
    InsertOneMembers(Values(rules, n), r);
    InsertAt(Values(rules, n), r, idx);
    InsertedValues(rules, n, idx, r);
  }

  class SessionRuleList {
    var numItems: nat                        // actual number of rules, the rest are nils
    var rules: seq<Option<SessionRule>>

    ghost predicate Shape()
      reads this
    {
      Slots(rules, numItems)
    }

    ghost function Content(): (s: seq<SessionRule>)
      requires Shape()
      reads this
      ensures |s| == numItems
    {
      Values(rules, numItems)
    }

    ghost predicate Valid()
      reads this
    {
      Shape() && Sorted(Content())
    }

    /** True until a rule is removed: no nil slots at the end. */
    predicate Compact()
      reads this
    {
      numItems == |rules|
    }

    constructor ()
      ensures Valid() && Content() == [] && Compact()
    {
      numItems := 0;
      rules := [];
    }

    /** sort.Search over the first numItems rules. */
    method LookupIdxByRule(rule: SessionRule) returns (idx: nat)
      requires Valid()
      ensures IsLowerBound(Content(), rule, idx)
    {
      var lo, hi := 0, numItems;
      while lo < hi
        invariant 0 <= lo <= hi <= numItems
        invariant forall i :: 0 <= i < lo ==> CompareSession(rule, Content()[i], false) > 0
        invariant forall i :: hi <= i < numItems ==> CompareSession(rule, Content()[i], false) <= 0
      {
        var h := (lo + hi) / 2;
        ghost var pivot := Content()[h];
        if CompareSession(rule, rules[h].value, false) <= 0 {
          forall i | h <= i < numItems ensures CompareSession(rule, Content()[i], false) <= 0 {
            if h < i { SessionTransitive(rule, pivot, Content()[i], false); }
          }
          hi := h;
        } else {
          forall i | 0 <= i <= h ensures CompareSession(rule, Content()[i], false) > 0 {
            SessionSymmetry(rule, pivot);
            SessionSymmetry(rule, Content()[i]);
            if i < h { SessionTransitive(Content()[i], pivot, rule, false); }
          }
          lo := h + 1;
        }
      }
      idx := lo;
    }

    method InsertRule(rule: SessionRule) returns (inserted: bool)
      requires Valid()
      modifies this
      ensures Valid() && Content() == InsertOne(old(Content()), rule)
      ensures inserted <==> |Content()| == old(numItems) + 1
      ensures old(Compact()) ==> Compact()
    {
      var idx := LookupIdxByRule(rule);
      InsertSlots(rules, numItems, idx, rule);
      if idx < numItems && CompareSession(rule, rules[idx].value, false) == 0 {
        return false;
      }
      ghost var slots := InsertedSlots(rules, numItems, idx, rule);
      if numItems == |rules| {
        rules := rules + [None];
      }
      // copy(rules[idx+1:], rules[idx:]); rules[idx] = rule
      rules := rules[..idx] + [Some(rule)] + rules[idx..|rules| - 1];
      assert rules == slots;
      numItems := numItems + 1;
      return true;
    }

    method Insert(newRules: seq<SessionRule>) returns (allIn: bool)
      requires Valid()
      modifies this
      ensures Valid() && Content() == InsertAll(old(Content()), newRules)
      ensures allIn <==> numItems == old(numItems) + |newRules|
      ensures numItems <= old(numItems) + |newRules|
      ensures old(Compact()) ==> Compact()
    {
      allIn := true;
      for i := 0 to |newRules|
        invariant Valid() && Content() == InsertAll(old(Content()), newRules[..i])
        invariant numItems <= old(numItems) + i
        invariant allIn <==> numItems == old(numItems) + i
        invariant old(Compact()) ==> Compact()
      {
        assert newRules[..i + 1][..i] == newRules[..i];
        ghost var before := Content();
        InsertOneLength(before, newRules[i]);
        var ok := InsertRule(newRules[i]);
        if !ok {
          allIn := false;
        }
      }
      assert newRules[..|newRules|] == newRules;
    }

    static lemma {:induction false} InsertOneLength(s: seq<SessionRule>, r: SessionRule)
      ensures |s| <= |InsertOne(s, r)| <= |s| + 1
    {
      if s != [] { InsertOneLength(s[1..], r); }
    }

    method Remove(idx: nat) returns (removed: bool)
      requires Valid()
      modifies this
      ensures Valid()
      ensures removed <==> idx < old(numItems)
      ensures Content() == if removed then old(Content())[..idx] + old(Content())[idx + 1..] else old(Content())
    {
      hide CompareSession, Sorted;
      if idx < numItems {
        ghost var before := Content();
        ShiftLeft(rules, numItems, idx);
        ghost var slots := (rules[..idx] + rules[idx + 1..] + [rules[|rules| - 1]])[numItems - 1 := None];
        // copy(rules[idx:], rules[idx+1:]); the freed slot becomes nil
        if idx < numItems - 1 {
          rules := rules[..idx] + rules[idx + 1..] + [rules[|rules| - 1]];
        }
        numItems := numItems - 1;
        rules := rules[numItems := None];
        assert rules == slots;
        RemoveSorted(before, idx);
        return true;
      }
      return false;
    }

    lemma ValidContent()
      requires Valid()
      ensures Shape() && Sorted(Content()) && |Content()| == numItems <= |rules|
      ensures forall k :: 0 <= k < numItems ==> rules[k].Some? && rules[k].value == Content()[k]
    {
      hide Sorted;
    }

    /** Merges the two sorted lists; added and removed are from this list's point of view. */
    method Diff(srl2: SessionRuleList) returns (added: seq<SessionRule>, removed: seq<SessionRule>)
      requires Valid() && srl2.Valid()
      ensures added == Minus(Content(), srl2.Content())
      ensures removed == Minus(srl2.Content(), Content())
    {
      hide *;
      ValidContent();
      srl2.ValidContent();
      added, removed := [], [];
      ghost var s, t := Content(), srl2.Content();
      NothingMerged(s, t);
      var idx1, idx2 := 0, 0;
      while idx1 < numItems || idx2 < srl2.numItems
        invariant 0 <= idx1 <= numItems && 0 <= idx2 <= srl2.numItems
        invariant Merged(s, t, idx1, idx2, added, removed)
        decreases numItems - idx1 + srl2.numItems - idx2
      {
        if idx1 < numItems {
          if idx2 < srl2.numItems {
            var order := CompareSession(rules[idx1].value, srl2.rules[idx2].value, true);
            SessionSymmetry(s[idx1], t[idx2]);
            if order == 0 {
              MergeEqual(s, t, idx1, idx2, added, removed);
              idx1 := idx1 + 1;
              idx2 := idx2 + 1;
            } else if order < 0 {
              MergeAdded(s, t, idx1, idx2, added, removed);
              added := added + [rules[idx1].value];
              idx1 := idx1 + 1;
            } else {
              MergeRemoved(s, t, idx1, idx2, added, removed);
              removed := removed + [srl2.rules[idx2].value];
              idx2 := idx2 + 1;
            }
          } else {
            MergeAdded(s, t, idx1, idx2, added, removed);
            added := added + [rules[idx1].value];
            idx1 := idx1 + 1;
          }
        } else {
          MergeRemoved(s, t, idx1, idx2, added, removed);
          removed := removed + [srl2.rules[idx2].value];
          idx2 := idx2 + 1;
        }
      }
      AllMerged(s, t, added, removed);
    }
  }

  /** Everything the merge has passed in one list precedes what remains of the other. */
  ghost predicate Apart(s: seq<SessionRule>, t: seq<SessionRule>, m: nat, n: nat) {
    && (forall i, j :: 0 <= i < m && n <= j < |t| && i < |s| ==> CompareSession(s[i], t[j], true) < 0)
    && (forall i, j :: m <= i < |s| && 0 <= j < n && j < |t| ==> CompareSession(t[j], s[i], true) < 0)
  }

  lemma SortedWithTag(s: seq<SessionRule>, i: nat, j: nat)
    requires Sorted(s) && i < j < |s|
    ensures CompareSession(s[i], s[j], true) < 0
  {
    hide CompareSession;
    SessionSymmetry(s[i], s[j]);
  }

  /** The merge has passed m rules of one list and n of the other. */
  ghost predicate Merged(s: seq<SessionRule>, t: seq<SessionRule>, m: nat, n: nat, added: seq<SessionRule>, removed: seq<SessionRule>) {
    && Sorted(s) && Sorted(t) && m <= |s| && n <= |t| && Apart(s, t, m, n)
    && added == Minus(s[..m], t) && removed == Minus(t[..n], s)
  }

  lemma NothingMerged(s: seq<SessionRule>, t: seq<SessionRule>)
    requires Sorted(s) && Sorted(t)
    ensures Merged(s, t, 0, 0, [], [])
  {
  }

  lemma AllMerged(s: seq<SessionRule>, t: seq<SessionRule>, added: seq<SessionRule>, removed: seq<SessionRule>)
    requires Merged(s, t, |s|, |t|, added, removed)
    ensures added == Minus(s, t) && removed == Minus(t, s)
  {
    assert s[..|s|] == s && t[..|t|] == t;
  }

  lemma MergeEqual(s: seq<SessionRule>, t: seq<SessionRule>, m: nat, n: nat, added: seq<SessionRule>, removed: seq<SessionRule>)
    requires Merged(s, t, m, n, added, removed) && m < |s| && n < |t| && s[m] == t[n]
    ensures Merged(s, t, m + 1, n + 1, added, removed)
  {
    hide CompareSession, Minus, Sorted;
    MinusStep(s, t, m);
    MinusStep(t, s, n);
    forall j | n + 1 <= j < |t| ensures CompareSession(s[m], t[j], true) < 0 {
      SortedWithTag(t, n, j);
    }
    forall i | m + 1 <= i < |s| ensures CompareSession(t[n], s[i], true) < 0 {
      SortedWithTag(s, m, i);
    }
  }

  lemma MergeAdded(s: seq<SessionRule>, t: seq<SessionRule>, m: nat, n: nat, added: seq<SessionRule>, removed: seq<SessionRule>)
    requires Merged(s, t, m, n, added, removed) && m < |s| && (n < |t| ==> CompareSession(s[m], t[n], true) < 0)
    ensures Merged(s, t, m + 1, n, added + [s[m]], removed)
  {
    hide CompareSession, Minus, Sorted, Apart;
    MinusStep(s, t, m);
    MergeLess(s, t, m, n);
  }

  lemma MergeRemoved(s: seq<SessionRule>, t: seq<SessionRule>, m: nat, n: nat, added: seq<SessionRule>, removed: seq<SessionRule>)
    requires Merged(s, t, m, n, added, removed) && n < |t| && (m < |s| ==> CompareSession(t[n], s[m], true) < 0)
    ensures Merged(s, t, m, n + 1, added, removed + [t[n]])
  {
    assert Apart(t, s, n, m);
    hide CompareSession, Minus, Sorted, Apart;
    MinusStep(t, s, n);
    MergeLess(t, s, n, m);
  }

  lemma MergeLess(s: seq<SessionRule>, t: seq<SessionRule>, m: nat, n: nat)
    requires Sorted(s) && Sorted(t) && m < |s| && n <= |t|
    requires Apart(s, t, m, n)
    requires n < |t| ==> CompareSession(s[m], t[n], true) < 0
    ensures Apart(s, t, m + 1, n) && Apart(t, s, n, m + 1) && s[m] !in t
  {
    hide CompareSession;
    forall j | n <= j < |t| ensures CompareSession(s[m], t[j], true) < 0 {
      if n < j {
        SortedWithTag(t, n, j);
        SessionTransitive(s[m], t[n], t[j], true);
      }
    }
    forall j | 0 <= j < |t| ensures t[j] != s[m] {
      SessionSymmetry(s[m], t[j]);
      SessionSymmetry(t[j], s[m]);
    }
  }
}
