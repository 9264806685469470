/** Firewall rules, query criteria, and the filters the query engine applies to a rule set. */
module FirewallRules {
  import opened Wrappers

  /** One entry of an instance's rule set, as the remote API returns it. Each field is optional:
      a rule object that lacks a key reads as `None`. */
  datatype Rule = Rule(
    protocol: Option<string>,
    port: Option<string>,
    cidrBlock: Option<string>,
    action: Option<string>,
    description: Option<string>)

  /** The five fields a rule can be filtered on. */
  datatype Field = Protocol | Port | CidrBlock | Action | Description

  /** Optional equality constraints on the five fields; `None` imposes no constraint. */
  datatype Criteria = Criteria(
    protocol: Option<string>,
    port: Option<string>,
    cidrBlock: Option<string>,
    action: Option<string>,
    description: Option<string>)

  /** The criteria that constrain nothing. */
  const Wildcard: Criteria := Criteria(None, None, None, None, None)

  function Get(r: Rule, f: Field): Option<string>
  {
    match f
    case Protocol => r.protocol
    case Port => r.port
    case CidrBlock => r.cidrBlock
    case Action => r.action
    case Description => r.description
  }

  function Want(c: Criteria, f: Field): Option<string>
  {
    match f
    case Protocol => c.protocol
    case Port => c.port
    case CidrBlock => c.cidrBlock
    case Action => c.action
    case Description => c.description
  }

  /** The criteria `c` with field `f` additionally constrained to `v`. */
  function Narrow(c: Criteria, f: Field, v: string): (n: Criteria)
    ensures Want(n, f) == Some(v)
    ensures forall g :: g != f ==> Want(n, g) == Want(c, g)
  {
    match f
    case Protocol => c.(protocol := Some(v))
    case Port => c.(port := Some(v))
    case CidrBlock => c.(cidrBlock := Some(v))
    case Action => c.(action := Some(v))
    case Description => c.(description := Some(v))
  }

  /** A single criterion accepts a field value: unset, or equal to it. A set criterion never
      accepts a missing field. */
  predicate Accepts(want: Option<string>, have: Option<string>)
  {
    want.None? || have == want
  }

  /** The conjunction of all five criteria. */
  predicate Matches(r: Rule, c: Criteria)
  {
    Accepts(c.protocol, r.protocol) && Accepts(c.port, r.port) && Accepts(c.cidrBlock, r.cidrBlock)
    && Accepts(c.action, r.action) && Accepts(c.description, r.description)
  }

  /** A rule meets the criteria exactly when every field's criterion accepts that field; in
      particular a rule lacking a field never meets a criterion set on it. */
  lemma MatchesPerField(r: Rule, c: Criteria)
    ensures Matches(r, c) <==> forall f :: Accepts(Want(c, f), Get(r, f))
    ensures forall f :: Want(c, f).Some? && Get(r, f).None? ==> !Matches(r, c)
  {
    if !Matches(r, c) {
      var f :| !Accepts(Want(c, f), Get(r, f)) by {
        if !Accepts(c.protocol, r.protocol) { assert !Accepts(Want(c, Protocol), Get(r, Protocol)); }
        else if !Accepts(c.port, r.port) { assert !Accepts(Want(c, Port), Get(r, Port)); }
        else if !Accepts(c.cidrBlock, r.cidrBlock) { assert !Accepts(Want(c, CidrBlock), Get(r, CidrBlock)); }
        else if !Accepts(c.action, r.action) { assert !Accepts(Want(c, Action), Get(r, Action)); }
        else { assert !Accepts(Want(c, Description), Get(r, Description)); }
      }
    }
  }

  /** `a` is obtained from `b` by deleting elements, keeping the order of the rest. */
  ghost predicate IsSubsequence(a: seq<Rule>, b: seq<Rule>)
    decreases |b|
  {
    if b == [] then a == []
    else (a != [] && a[0] == b[0] && IsSubsequence(a[1..], b[1..])) || IsSubsequence(a, b[1..])
  }

  /** Every rule set is a subsequence of itself. */
  lemma {:induction false} SubsequenceReflexive(rules: seq<Rule>)
    ensures IsSubsequence(rules, rules)
  {
    if rules != [] {
      SubsequenceReflexive(rules[1..]);
    }
  }

  /** One guarded filter stage: the rules whose field `f` is present and equals `v`, in order. */
  function Keep(rules: seq<Rule>, f: Field, v: string): (r: seq<Rule>)
    ensures forall x {:trigger x in r} :: x in r <==> x in rules && Get(x, f) == Some(v)
    ensures forall x {:trigger multiset(r)[x]} :: multiset(r)[x] == if Get(x, f) == Some(v) then multiset(rules)[x] else 0
    ensures IsSubsequence(r, rules)
    ensures |r| <= |rules|
  {
    if rules == [] then []
    else
      assert rules == [rules[0]] + rules[1..];
      if Get(rules[0], f) == Some(v) then [rules[0]] + Keep(rules[1..], f, v)
      else Keep(rules[1..], f, v)
  }

  /** A guarded filter stage: no filtering when the criterion is unset. */
  function Stage(rules: seq<Rule>, f: Field, want: Option<string>): seq<Rule>
  {
    if want.None? then rules else Keep(rules, f, want.value)
  }

  /** The reference query: one pass that keeps the rules meeting every criterion at once. */
  function Select(rules: seq<Rule>, c: Criteria): (r: seq<Rule>)
    ensures forall x {:trigger x in r} :: x in r <==> x in rules && Matches(x, c)
    ensures forall x {:trigger multiset(r)[x]} :: multiset(r)[x] == if Matches(x, c) then multiset(rules)[x] else 0
    ensures IsSubsequence(r, rules)
    ensures |r| <= |rules|
  {
    if rules == [] then []
    else
      assert rules == [rules[0]] + rules[1..];
      if Matches(rules[0], c) then [rules[0]] + Select(rules[1..], c)
      else Select(rules[1..], c)
  }

  /** The first page of at most `n` rules, in the remote's order. */
  function Take(rules: seq<Rule>, n: nat): (r: seq<Rule>)
    ensures |r| == if |rules| <= n then |rules| else n
    ensures r == rules[..|r|]
  {
    if |rules| <= n then rules else rules[..n]
  }

  /** What a remote bulk delete leaves: every rule not listed in `doomed`, in order. */
  function Remove(rules: seq<Rule>, doomed: seq<Rule>): (r: seq<Rule>)
    ensures forall x {:trigger x in r} :: x in r <==> x in rules && x !in doomed
    ensures forall x {:trigger multiset(r)[x]} :: multiset(r)[x] == if x in doomed then 0 else multiset(rules)[x]
    ensures IsSubsequence(r, rules)
    ensures |r| <= |rules|
  {
    if rules == [] then []
    else
      assert rules == [rules[0]] + rules[1..];
      if rules[0] !in doomed then [rules[0]] + Remove(rules[1..], doomed)
      else Remove(rules[1..], doomed)
  }

  /** Deleting the matches of a query splits the rule set: every copy of a rule goes either to
      the matches or to the survivors, so the survivors number the rules minus the matches. */
  lemma SelectRemovePartition(rules: seq<Rule>, c: Criteria)
    ensures multiset(rules) == multiset(Select(rules, c)) + multiset(Remove(rules, Select(rules, c)))
    ensures |Remove(rules, Select(rules, c))| == |rules| - |Select(rules, c)|
  {
    var matched := Select(rules, c);
    var left := Remove(rules, matched);
    forall x
      ensures multiset(rules)[x] == multiset(matched)[x] + multiset(left)[x]
    {
      if x !in rules {
        assert multiset(rules)[x] == 0;
      }
    }
    assert multiset(rules) == multiset(matched) + multiset(left);
    assert |multiset(rules)| == |multiset(matched)| + |multiset(left)|;
  }

  /** Deleting a list that covers every rule leaves nothing. */
  lemma {:induction false} RemoveCovered(rules: seq<Rule>, doomed: seq<Rule>)
    requires forall x :: x in rules ==> x in doomed
    ensures Remove(rules, doomed) == []
  {
    if rules != [] {
      RemoveCovered(rules[1..], doomed);
    }
  }

  /** One step of the query: the first rule is kept exactly when it meets the criteria. */
  lemma SelectHead(rules: seq<Rule>, c: Criteria)
    requires rules != []
    ensures Select(rules, c) == (if Matches(rules[0], c) then [rules[0]] else []) + Select(rules[1..], c)
  {
  }

  /** One step of the bulk delete: the first rule stays exactly when it is not listed. */
  lemma RemoveHead(rules: seq<Rule>, doomed: seq<Rule>)
    requires rules != []
    ensures Remove(rules, doomed) == (if rules[0] in doomed then [] else [rules[0]]) + Remove(rules[1..], doomed)
  {
  }

  /** Rules in front that meet none of the criteria add nothing to the query. */
  lemma {:induction false} SelectSkip(a: seq<Rule>, b: seq<Rule>, c: Criteria)
    requires forall x :: x in a ==> !Matches(x, c)
    ensures Select(a + b, c) == Select(b, c)
  {
    if a == [] {
      assert a + b == b;
    } else {
      assert (a + b)[1..] == a[1..] + b;
      SelectSkip(a[1..], b, c);
      SelectHead(a + b, c);
    }
  }

  /** Deleting a list that shares no rule with the rule set leaves it as it was. */
  lemma {:induction false} RemoveDisjoint(rules: seq<Rule>, doomed: seq<Rule>)
    requires forall x :: x in rules ==> x !in doomed
    ensures Remove(rules, doomed) == rules
  {
    if rules != [] {
      RemoveDisjoint(rules[1..], doomed);
      assert rules == [rules[0]] + rules[1..];
    }
  }

  /** Rules at the back that are all listed for deletion leave nothing behind. */
  lemma {:induction false} RemoveDropsSuffix(a: seq<Rule>, b: seq<Rule>, doomed: seq<Rule>)
    requires forall x :: x in b ==> x in doomed
    ensures Remove(a + b, doomed) == Remove(a, doomed)
  {
    if a == [] {
      assert a + b == b;
      RemoveCovered(b, doomed);
    } else {
      assert (a + b)[1..] == a[1..] + b;
      RemoveDropsSuffix(a[1..], b, doomed);
      RemoveHead(a + b, doomed);
      RemoveHead(a, doomed);
    }
  }

  /** With no criterion set, the query returns its input unchanged. */
  lemma {:induction false} SelectWildcard(rules: seq<Rule>)
    ensures Select(rules, Wildcard) == rules
  {
    if rules != [] {
      SelectWildcard(rules[1..]);
      assert rules == [rules[0]] + rules[1..];
    }
  }

  /** The query is empty exactly when no rule meets the criteria. */
  lemma NoneSelected(rules: seq<Rule>, c: Criteria)
    ensures Select(rules, c) == [] <==> forall x :: x in rules ==> !Matches(x, c)
  {
    var r := Select(rules, c);
    if r != [] {
      assert r[0] in r;
    }
  }

  /** Narrowing on a field the criteria leave unset: applying one more filter stage to the result
      of the reference query equals the reference query with that criterion added. */
  lemma {:induction false} KeepNarrows(rules: seq<Rule>, c: Criteria, f: Field, v: string)
    requires Want(c, f) == None
    ensures Keep(Select(rules, c), f, v) == Select(rules, Narrow(c, f, v))
  {
    if rules != [] {
      KeepNarrows(rules[1..], c, f, v);
      var x := rules[0];
      assert Matches(x, Narrow(c, f, v)) <==> Matches(x, c) && Get(x, f) == Some(v) by {
        match f
        case Protocol =>
        case Port =>
        case CidrBlock =>
        case Action =>
        case Description =>
      }
    }
  }

  /** The five guarded stages, applied in the order protocol, port, CIDR block, action,
      description, equal the reference query. */
  lemma StagesEqualSelect(rules: seq<Rule>, c: Criteria)
    ensures Stage(Stage(Stage(Stage(Stage(rules, Protocol, c.protocol), Port, c.port), CidrBlock, c.cidrBlock),
                        Action, c.action), Description, c.description)
         == Select(rules, c)
  {
    var c1 := Criteria(c.protocol, None, None, None, None);
    var c2 := Criteria(c.protocol, c.port, None, None, None);
    var c3 := Criteria(c.protocol, c.port, c.cidrBlock, None, None);
    var c4 := Criteria(c.protocol, c.port, c.cidrBlock, c.action, None);
    SelectWildcard(rules);
    StageNarrows(rules, Wildcard, Protocol, c.protocol, c1);
    StageNarrows(rules, c1, Port, c.port, c2);
    StageNarrows(rules, c2, CidrBlock, c.cidrBlock, c3);
    StageNarrows(rules, c3, Action, c.action, c4);
    StageNarrows(rules, c4, Description, c.description, c);
  }

  /** One guarded stage on a field the criteria leave unset adds that criterion, or nothing. */
  lemma StageNarrows(rules: seq<Rule>, c: Criteria, f: Field, want: Option<string>, next: Criteria)
    requires Want(c, f) == None
    requires next == if want.None? then c else Narrow(c, f, want.value)
    ensures Stage(Select(rules, c), f, want) == Select(rules, next)
  {
    if want.Some? {
      KeepNarrows(rules, c, f, want.value);
    }
  }

  /** Two filter stages commute: the order in which criteria are applied does not matter. */
  lemma {:induction false} KeepCommutes(rules: seq<Rule>, f: Field, v: string, g: Field, w: string)
    ensures Keep(Keep(rules, f, v), g, w) == Keep(Keep(rules, g, w), f, v)
  {
    if rules != [] {
      KeepCommutes(rules[1..], f, v, g, w);
    }
  }

  /** Rules past the first page never influence a query of that page. */
  lemma BeyondPageIgnored(rules: seq<Rule>, extra: seq<Rule>, n: nat, c: Criteria)
    requires |rules| >= n
    ensures Select(Take(rules + extra, n), c) == Select(Take(rules, n), c)
  {
    assert Take(rules + extra, n) == rules[..n] == Take(rules, n);
  }
}
