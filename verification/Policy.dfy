/** Policy documents and access decisions. */
module Policy {
  import opened ByteStrings
  import opened Paths
  import Glob
  import opened TagTables

  datatype Capability = Read | Write | Delete | List | Admin

  datatype Rule = Rule(path: string, capabilities: set<Capability>, requireTags: seq<Tag>)

  /** A prohibition; without capabilities it covers every one. */
  datatype DenyRule = DenyRule(path: string, capabilities: Option<set<Capability>>)

  datatype Document = Document(name: string, rules: seq<Rule>, deny: seq<DenyRule>)

  datatype Request = Request(path: SecretPath, capability: Capability, tags: set<Tag>)

  datatype Decision = Allow(matched: string) | Deny

  predicate PatternMatches(pattern: string, path: string) {
    Glob.Matches(Split(pattern), Split(path))
  }

  predicate Covers(d: DenyRule, capability: Capability) {
    d.capabilities.Some? ==> capability in d.capabilities.value
  }

  predicate Forbids(d: DenyRule, r: Request) {
    Covers(d, r.capability) && PatternMatches(d.path, r.path)
  }

  predicate Grants(rule: Rule, r: Request) {
    && r.capability in rule.capabilities
    && PatternMatches(rule.path, r.path)
    && forall t :: t in rule.requireTags ==> t in r.tags
  }

  // ----- evaluation, policy by policy and rule by rule -----

  function AllDenies(policies: seq<Document>): seq<DenyRule> {
    if policies == [] then [] else policies[0].deny + AllDenies(policies[1..])
  }

  function AllRules(policies: seq<Document>): seq<Rule> {
    if policies == [] then [] else policies[0].rules + AllRules(policies[1..])
  }

  predicate AnyForbids(denies: seq<DenyRule>, r: Request) {
    denies != [] && (Forbids(denies[0], r) || AnyForbids(denies[1..], r))
  }

  function FirstGrant(rules: seq<Rule>, r: Request): Decision {
    if rules == [] then Deny
    else if Grants(rules[0], r) then Allow(rules[0].path)
    else FirstGrant(rules[1..], r)
  }

  function Evaluate(policies: seq<Document>, r: Request): Decision {
    if AnyForbids(AllDenies(policies), r) then Deny else FirstGrant(AllRules(policies), r)
  }

  /** The pathless gate: some rule carries the capability at all. */
  predicate GrantsWithoutPath(policies: seq<Document>, capability: Capability) {
    exists rule :: rule in AllRules(policies) && capability in rule.capabilities
  }

  // ----- what a decision means -----

  /** A prohibition covers a request by its path and, unless it names none, its capability; tags do not matter. */
  predicate Prohibited(policies: seq<Document>, r: Request) {
    exists p, d :: p in policies && d in p.deny
      && Glob.Matches(Split(d.path), Split(r.path))
      && (d.capabilities == None || r.capability in d.capabilities.value)
  }

  predicate Granted(policies: seq<Document>, r: Request) {
    exists p, rule :: p in policies && rule in p.rules
      && Glob.Matches(Split(rule.path), Split(r.path))
      && r.capability in rule.capabilities
      && forall t :: t in rule.requireTags ==> t in r.tags
  }

  lemma DenyMeans(r: Request)
    ensures forall d :: Forbids(d, r) <==>
      Glob.Matches(Split(d.path), Split(r.path)) && (d.capabilities == None || r.capability in d.capabilities.value)
  {
    hide Glob.Matches, Split;
  }

  lemma GrantMeans(r: Request)
    ensures forall rule :: Grants(rule, r) <==>
      && Glob.Matches(Split(rule.path), Split(r.path))
      && r.capability in rule.capabilities
      && forall t :: t in rule.requireTags ==> t in r.tags
  {
    hide Glob.Matches, Split;
  }

  lemma ProhibitedMeans(policies: seq<Document>, r: Request)
    ensures Prohibited(policies, r) <==> exists p, d :: p in policies && d in p.deny && Forbids(d, r)
  {
    hide Glob.Matches, Split, Forbids;
    DenyMeans(r);
  }

  lemma GrantedMeans(policies: seq<Document>, r: Request)
    ensures Granted(policies, r) <==> exists p, rule :: p in policies && rule in p.rules && Grants(rule, r)
  {
    hide Glob.Matches, Split, Grants;
    GrantMeans(r);
  }

  lemma {:induction false} AllDeniesMeans(policies: seq<Document>, d: DenyRule)
    ensures d in AllDenies(policies) <==> exists p :: p in policies && d in p.deny
  {
    if policies != [] {
      AllDeniesMeans(policies[1..], d);
      assert policies == [policies[0]] + policies[1..];
    }
  }

  lemma {:induction false} AllRulesMeans(policies: seq<Document>, rule: Rule)
    ensures rule in AllRules(policies) <==> exists p :: p in policies && rule in p.rules
  {
    if policies != [] {
      AllRulesMeans(policies[1..], rule);
      assert policies == [policies[0]] + policies[1..];
    }
  }

  lemma {:induction false} AnyForbidsMeans(denies: seq<DenyRule>, r: Request)
    ensures AnyForbids(denies, r) <==> exists d :: d in denies && Forbids(d, r)
  {
    if denies != [] {
      hide Forbids;
      AnyForbidsMeans(denies[1..], r);
      assert denies == [denies[0]] + denies[1..];
    }
  }

  /** The first granting rule in order names the decision. */
  lemma {:induction false} FirstGrantMeans(rules: seq<Rule>, r: Request)
    ensures FirstGrant(rules, r).Deny? <==> forall rule :: rule in rules ==> !Grants(rule, r)
    ensures var d := FirstGrant(rules, r);
      d.Allow? ==> exists i :: 0 <= i < |rules| && Grants(rules[i], r) && rules[i].path == d.matched
                               && forall j :: 0 <= j < i ==> !Grants(rules[j], r)
  {
    if rules != [] {
      hide Grants;
      FirstGrantMeans(rules[1..], r);
      assert rules == [rules[0]] + rules[1..];
      var d := FirstGrant(rules, r);
      if d.Allow? {
        if Grants(rules[0], r) {
          assert 0 <= 0 < |rules| && Grants(rules[0], r);
        } else {
          var i :| 0 <= i < |rules[1..]| && Grants(rules[1..][i], r) && rules[1..][i].path == d.matched
                   && forall j :: 0 <= j < i ==> !Grants(rules[1..][j], r);
          forall j | 0 <= j < i + 1 ensures !Grants(rules[j], r) {
            assert j > 0 ==> rules[j] == rules[1..][j - 1];
          }
          assert rules[i + 1] == rules[1..][i];
        }
      }
    }
  }

  /** Access is allowed exactly when no attached policy prohibits it and some rule of some policy grants it. */
  lemma DecisionMeans(policies: seq<Document>, r: Request)
    ensures Evaluate(policies, r).Allow? <==> !Prohibited(policies, r) && Granted(policies, r)
  {
    hide Forbids, Grants, AnyForbids, FirstGrant, AllRules, AllDenies;
    AnyForbidsMeans(AllDenies(policies), r);
    FirstGrantMeans(AllRules(policies), r);
    ProhibitedMeans(policies, r);
    GrantedMeans(policies, r);
    hide Prohibited, Granted;
    forall d ensures d in AllDenies(policies) <==> exists p :: p in policies && d in p.deny {
      AllDeniesMeans(policies, d);
    }
    forall rule ensures rule in AllRules(policies) <==> exists p :: p in policies && rule in p.rules {
      AllRulesMeans(policies, rule);
    }
  }

  /** The decision names the pattern of a rule that grants, and none before it does. */
  lemma FirstGrantingRuleIsNamed(policies: seq<Document>, r: Request) returns (i: nat)
    requires Evaluate(policies, r).Allow?
    ensures var rules := AllRules(policies);
      && i < |rules| && rules[i].path == Evaluate(policies, r).matched
      && Granted([Document("", [rules[i]], [])], r)
      && !Granted([Document("", rules[..i], [])], r)
  {
    hide Grants, AllRules;
    var rules := AllRules(policies);
    FirstGrantMeans(rules, r);
    i :| 0 <= i < |rules| && Grants(rules[i], r) && rules[i].path == Evaluate(policies, r).matched
      && forall j :: 0 <= j < i ==> !Grants(rules[j], r);
    var (one, earlier) := (Document("", [rules[i]], []), Document("", rules[..i], []));
    GrantedMeans([one], r);
    GrantedMeans([earlier], r);
    hide Granted;
    assert one in [one] && rules[i] in one.rules;
    forall rule | rule in earlier.rules ensures !Grants(rule, r) {
      var j :| 0 <= j < i && rules[j] == rule;
    }
  }

  /** The order policies are attached in does not matter, nor does attaching one twice. */
  lemma OrderOfPoliciesIsIrrelevant(a: seq<Document>, b: seq<Document>, r: Request)
    requires forall p :: p in a <==> p in b
    ensures Evaluate(a, r).Allow? <==> Evaluate(b, r).Allow?
  {
    hide Evaluate, Glob.Matches, Split;
    DecisionMeans(a, r);
    DecisionMeans(b, r);
  }

  /** Attaching more policies never gets past a prohibition. */
  lemma MorePoliciesKeepProhibitions(a: seq<Document>, b: seq<Document>, r: Request)
    requires forall p :: p in a ==> p in b
    requires Prohibited(a, r)
    ensures Evaluate(b, r) == Deny
  {
    hide Glob.Matches, Split, Evaluate;
    DecisionMeans(b, r);
    DenyOrAllow(b, r);
  }

  lemma DenyOrAllow(policies: seq<Document>, r: Request)
    ensures Evaluate(policies, r) == Deny || Evaluate(policies, r).Allow?
  {
    hide Evaluate;
  }

  function WithoutTags(rule: Rule): Rule {
    rule.(requireTags := [])
  }

  function StripTags(p: Document): Document {
    p.(rules := seq(|p.rules|, i requires 0 <= i < |p.rules| => WithoutTags(p.rules[i])))
  }

  /** Required tags only narrow: whatever is allowed with them is allowed with all of them struck out. */
  lemma RequiredTagsOnlyNarrow(policies: seq<Document>, r: Request)
    requires Evaluate(policies, r).Allow?
    ensures Evaluate(seq(|policies|, i requires 0 <= i < |policies| => StripTags(policies[i])), r).Allow?
  {
    hide Evaluate, Prohibited, Granted, Forbids, PatternMatches;
    var stripped := seq(|policies|, i requires 0 <= i < |policies| => StripTags(policies[i]));
    DecisionMeans(policies, r);
    DecisionMeans(stripped, r);
    ProhibitedMeans(policies, r);
    ProhibitedMeans(stripped, r);
    GrantedMeans(policies, r);
    GrantedMeans(stripped, r);
    var p, rule :| p in policies && rule in p.rules && Grants(rule, r);
    var i :| 0 <= i < |policies| && policies[i] == p;
    var j :| 0 <= j < |p.rules| && p.rules[j] == rule;
    assert stripped[i] in stripped && stripped[i].rules[j] in stripped[i].rules;
    assert Grants(stripped[i].rules[j], r);
    forall q, d | q in stripped && d in q.deny ensures !Forbids(d, r) {
      var k :| 0 <= k < |stripped| && stripped[k] == q;
      assert policies[k] in policies && d in policies[k].deny;
    }
  }

  /** Carrying more tags never loses access: tags are never grounds for a denial. */
  lemma MoreTagsKeepAccess(policies: seq<Document>, r: Request, more: set<Tag>)
    requires Evaluate(policies, r).Allow?
    ensures Evaluate(policies, r.(tags := r.tags + more)).Allow?
  {
    hide Evaluate, Glob.Matches, Split;
    DecisionMeans(policies, r);
    DecisionMeans(policies, r.(tags := r.tags + more));
  }

  /** Whoever is granted a capability on any one path passes the pathless gate for it. */
  lemma PathlessGateAdmits(policies: seq<Document>, r: Request)
    requires Evaluate(policies, r).Allow?
    ensures GrantsWithoutPath(policies, r.capability)
  {
    hide Evaluate, Glob.Matches, Split;
    DecisionMeans(policies, r);
    forall rule { AllRulesMeans(policies, rule); }
  }

  // ----- rules over a subtree -----

  function Subtree(p: SecretPath): string {
    p + "/**"
  }

  lemma SubtreeMatches(p: SecretPath, path: SecretPath)
    ensures Glob.Matches(Split(Subtree(p)), Split(path)) <==> StartsWithPrefix(path, p)
  {
    Glob.UnderAgreesThreeWays(p, path);
  }

  /** A rule over a subtree grants exactly its capabilities, to exactly the paths under it that carry its tags. */
  lemma SubtreeRuleGrants(p: SecretPath, name: string, capabilities: set<Capability>, tags: seq<Tag>, r: Request)
    ensures Evaluate([Document(name, [Rule(Subtree(p), capabilities, tags)], [])], r).Allow? <==>
      && StartsWithPrefix(r.path, p)
      && r.capability in capabilities
      && forall t :: t in tags ==> t in r.tags
  {
    hide Evaluate, Glob.Matches, Split, Subtree, StartsWithPrefix;
    var rule := Rule(Subtree(p), capabilities, tags);
    var document := Document(name, [rule], []);
    DecisionMeans([document], r);
    SubtreeMatches(p, r.path);
    assert document in [document] && rule in document.rules;
  }

  /**
   * Attaching a prohibition over a subtree takes away exactly what lies under it: every capability if it names
   * none, otherwise those it names.
   */
  lemma SubtreeProhibitionDenies(
    policies: seq<Document>, p: SecretPath, name: string, capabilities: Option<set<Capability>>, r: Request)
    ensures Evaluate(policies + [Document(name, [], [DenyRule(Subtree(p), capabilities)])], r).Allow? <==>
      && Evaluate(policies, r).Allow?
      && !(StartsWithPrefix(r.path, p) && (capabilities == None || r.capability in capabilities.value))
  {
    hide Evaluate, Glob.Matches, Split, Subtree, StartsWithPrefix;
    var deny := DenyRule(Subtree(p), capabilities);
    var document := Document(name, [], [deny]);
    var more := policies + [document];
    DecisionMeans(policies, r);
    DecisionMeans(more, r);
    SubtreeMatches(p, r.path);
    assert document in more && deny in document.deny;
    assert forall q :: q in more <==> q in policies || q == document;
  }
}
