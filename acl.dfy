/**
 * The access-evaluation engine: a file's access rules as the security
 * subsystem returns them, and the two policies the tool applies to them.
 *
 * - The strict policy (`CanAccessFile`) scans the rules in order; the first
 *   rule that names a role of the current principal and covers ReadData
 *   decides (Allow grants, Deny refuses); with no such rule access is
 *   assumed; a failed fetch of the rules refuses.
 * - The aggregate policy (`EffectiveRights`) ORs every Allow rule's ReadData
 *   and WriteData bits together, whoever the rule names; Deny rules are not
 *   consulted; a failed fetch grants nothing.
 */
module Acl {

  import opened Wrappers

  /** A security identifier, in its string form. */
  type Sid = string

  /** `AccessControlType`. */
  datatype ControlType = Allow | Deny

  /** `FileSystemRights.ReadData` and `FileSystemRights.WriteData`. */
  const ReadData: bv32 := 0x1
  const WriteData: bv32 := 0x2

  /** A `FileSystemAccessRule`: an identity, a rights mask and an effect. */
  datatype Rule = Rule(identity: Sid, rights: bv32, controlType: ControlType)

  predicate HasRight(rule: Rule, right: bv32)
  {
    rule.rights & right != 0
  }

  // ---------------------------------------------------------------------
  // Strict policy
  // ---------------------------------------------------------------------

  /** A rule the strict policy stops at: it names a role of the principal
      and covers ReadData. */
  predicate Decisive(rule: Rule, isInRole: Sid -> bool)
  {
    isInRole(rule.identity) && HasRight(rule, ReadData)
  }

  /** The decision of the strict scan over a list of rules that was fetched. */
  function FirstMatch(rules: seq<Rule>, isInRole: Sid -> bool): bool
  {
    if rules == [] then true
    else if Decisive(rules[0], isInRole) then rules[0].controlType == Allow
    else FirstMatch(rules[1..], isInRole)
  }

  /** The strict policy: `None` stands for an exception while fetching. */
  function StrictAccess(acl: Option<seq<Rule>>, isInRole: Sid -> bool): bool
  {
    match acl
    case None => false
    case Some(rules) => FirstMatch(rules, isInRole)
  }

  /** `CanAccessFile`: the loop with early returns over the fetched rules. */
  method CanAccessFile(acl: Option<seq<Rule>>, isInRole: Sid -> bool) returns (ok: bool)
    ensures ok == StrictAccess(acl, isInRole)
    ensures acl.None? ==> !ok
  {
    if acl.None? {
      return false;
    }
    var rules := acl.value;
    var i := 0;
    while i < |rules|
      invariant 0 <= i <= |rules|
      invariant FirstMatch(rules[i..], isInRole) == FirstMatch(rules, isInRole)
    {
      var rule := rules[i];
      assert rules[i..][0] == rule && rules[i..][1..] == rules[i + 1..];
      if isInRole(rule.identity) {
        if rule.rights & ReadData != 0 {
          if rule.controlType == Allow {
            return true;
          }
          if rule.controlType == Deny {
            return false;
          }
        }
      }
      i := i + 1;
    }
    return true;
  }

  /** First match wins: the first decisive rule alone fixes the outcome,
      whatever rules follow it. */
  lemma {:induction false} FirstDecisiveRuleDecides(rules: seq<Rule>, k: nat, isInRole: Sid -> bool)
    requires k < |rules| && Decisive(rules[k], isInRole)
    requires forall j :: 0 <= j < k ==> !Decisive(rules[j], isInRole)
    ensures FirstMatch(rules, isInRole) <==> rules[k].controlType == Allow
  {
    if k > 0 {
      FirstDecisiveRuleDecides(rules[1..], k - 1, isInRole);
    }
  }

  /** A Deny that is the first decisive rule refuses access even when an
      Allow for the principal comes later. */
  lemma DenyBeforeLaterAllow(before: seq<Rule>, deny: Rule, later: seq<Rule>, isInRole: Sid -> bool)
    requires forall j :: 0 <= j < |before| ==> !Decisive(before[j], isInRole)
    requires Decisive(deny, isInRole) && deny.controlType == Deny
    ensures !StrictAccess(Some(before + [deny] + later), isInRole)
  {
    var rules := before + [deny] + later;
    assert rules[|before|] == deny;
    FirstDecisiveRuleDecides(rules, |before|, isInRole);
  }

  /** Default allow: when no rule is decisive, access is assumed. */
  lemma {:induction false} NoDecisiveRuleAllows(rules: seq<Rule>, isInRole: Sid -> bool)
    requires forall j :: 0 <= j < |rules| ==> !Decisive(rules[j], isInRole)
    ensures StrictAccess(Some(rules), isInRole)
  {
    if rules != [] {
      NoDecisiveRuleAllows(rules[1..], isInRole);
    }
  }

  /** Conversely, a refusal of fetched rules always comes from a decisive
      Deny with no decisive rule before it. */
  lemma {:induction false} RefusalHasFirstDeny(rules: seq<Rule>, isInRole: Sid -> bool)
    requires !FirstMatch(rules, isInRole)
    ensures exists k :: 0 <= k < |rules| && FirstDecisiveDeny(rules, k, isInRole)
  {
    if !Decisive(rules[0], isInRole) {
      RefusalHasFirstDeny(rules[1..], isInRole);
      var k :| 0 <= k < |rules[1..]| && FirstDecisiveDeny(rules[1..], k, isInRole);
      assert FirstDecisiveDeny(rules, k + 1, isInRole);
    } else {
      assert FirstDecisiveDeny(rules, 0, isInRole);
    }
  }

  predicate FirstDecisiveDeny(rules: seq<Rule>, k: int, isInRole: Sid -> bool)
  {
    && 0 <= k < |rules|
    && Decisive(rules[k], isInRole)
    && rules[k].controlType == Deny
    && forall j :: 0 <= j < k ==> !Decisive(rules[j], isInRole)
  }

  /** A rule that is not decisive for the principal (another identity, or no
      ReadData) never changes the strict outcome, wherever it stands. */
  lemma {:induction false} IrrelevantRule(before: seq<Rule>, rule: Rule, after: seq<Rule>, isInRole: Sid -> bool)
    requires !Decisive(rule, isInRole)
    ensures FirstMatch(before + [rule] + after, isInRole) == FirstMatch(before + after, isInRole)
  {
    if before == [] {
      assert before + [rule] + after == [rule] + after;
      assert ([rule] + after)[1..] == after;
      assert before + after == after;
    } else {
      IrrelevantRule(before[1..], rule, after, isInRole);
      assert (before + [rule] + after)[1..] == before[1..] + [rule] + after;
      assert (before + after)[1..] == before[1..] + after;
    }
  }

  // ---------------------------------------------------------------------
  // Aggregate policy
  // ---------------------------------------------------------------------

  /** Whether some Allow rule carries `right`. */
  predicate AllowsRight(rules: seq<Rule>, right: bv32)
  {
    exists i :: 0 <= i < |rules| && AllowRuleWith(rules[i], right)
  }

  predicate AllowRuleWith(rule: Rule, right: bv32)
  {
    rule.controlType == Allow && HasRight(rule, right)
  }

  /** The two flags the report computes for one file. */
  datatype Rights = Rights(canRead: bool, canWrite: bool)

  /** The aggregate policy: `None` stands for an exception while fetching. */
  function AggregateRights(acl: Option<seq<Rule>>): Rights
  {
    match acl
    case None => Rights(false, false)
    case Some(rules) => Rights(AllowsRight(rules, ReadData), AllowsRight(rules, WriteData))
  }

  /** The loop over all rules that sets `canRead` and `canWrite`. */
  method EffectiveRights(acl: Option<seq<Rule>>) returns (canRead: bool, canWrite: bool)
    ensures Rights(canRead, canWrite) == AggregateRights(acl)
  {
    canRead, canWrite := false, false;
    if acl.None? {
      return;
    }
    var rules := acl.value;
    for i := 0 to |rules|
      invariant canRead <==> AllowsRight(rules[..i], ReadData)
      invariant canWrite <==> AllowsRight(rules[..i], WriteData)
    {
      var rule := rules[i];
      assert rules[..i + 1] == rules[..i] + [rule];
      if rule.rights & ReadData != 0 && rule.controlType == Allow {
        canRead := true;
      }
      if rule.rights & WriteData != 0 && rule.controlType == Allow {
        canWrite := true;
      }
      assert canRead ==> AllowRuleWith(rules[..i + 1][i], ReadData) || AllowsRight(rules[..i], ReadData);
    }
    assert rules[..|rules|] == rules;
  }

  /** The rules with every Deny rule taken out. */
  function WithoutDeny(rules: seq<Rule>): (r: seq<Rule>)
    ensures forall i :: 0 <= i < |r| ==> r[i].controlType == Allow
  {
    if rules == [] then []
    else (if rules[0].controlType == Deny then [] else [rules[0]]) + WithoutDeny(rules[1..])
  }

  /** Deny rules play no part in the aggregate policy: removing all of them
      leaves both flags as they were. */
  lemma {:induction false} AggregateIgnoresDeny(rules: seq<Rule>, right: bv32)
    ensures AllowsRight(WithoutDeny(rules), right) == AllowsRight(rules, right)
  {
    if rules != [] {
      AggregateIgnoresDeny(rules[1..], right);
      var head := if rules[0].controlType == Deny then [] else [rules[0]];
      AllowsRightAppend(head, WithoutDeny(rules[1..]), right);
      AllowsRightAppend([rules[0]], rules[1..], right);
      assert [rules[0]] + rules[1..] == rules;
      assert AllowsRight(head, right) == AllowsRight([rules[0]], right) by {
        if head == [] {
          assert !AllowRuleWith(rules[0], right);
        } else {
          assert head == [rules[0]];
        }
      }
    }
  }

  /** The aggregate flags of a concatenation are the OR of the parts'. */
  lemma AllowsRightAppend(a: seq<Rule>, b: seq<Rule>, right: bv32)
    ensures AllowsRight(a + b, right) == (AllowsRight(a, right) || AllowsRight(b, right))
  {
    if AllowsRight(a + b, right) {
      var i :| 0 <= i < |a + b| && AllowRuleWith((a + b)[i], right);
      if i >= |a| {
        assert AllowRuleWith(b[i - |a|], right);
      }
    }
    if AllowsRight(a, right) {
      var i :| 0 <= i < |a| && AllowRuleWith(a[i], right);
      assert (a + b)[i] == a[i];
    }
    if AllowsRight(b, right) {
      var i :| 0 <= i < |b| && AllowRuleWith(b[i], right);
      assert (a + b)[|a| + i] == b[i];
    }
  }

  /** Adding a Deny rule anywhere changes neither flag. */
  lemma InsertedDenyChangesNothing(before: seq<Rule>, deny: Rule, after: seq<Rule>)
    requires deny.controlType == Deny
    ensures AggregateRights(Some(before + [deny] + after)) == AggregateRights(Some(before + after))
  {
    AllowsRightAppend(before + [deny], after, ReadData);
    AllowsRightAppend(before + [deny], after, WriteData);
    AllowsRightAppend(before, [deny], ReadData);
    AllowsRightAppend(before, [deny], WriteData);
    AllowsRightAppend(before, after, ReadData);
    AllowsRightAppend(before, after, WriteData);
    assert !AllowRuleWith([deny][0], ReadData) && !AllowRuleWith([deny][0], WriteData);
  }

  // ---------------------------------------------------------------------
  // How the two policies relate
  // ---------------------------------------------------------------------

  /** The aggregate flags read only the rights and the effect of each rule:
      rules naming other identities give the same flags. */
  lemma AggregateIgnoresIdentity(a: seq<Rule>, b: seq<Rule>)
    requires |a| == |b|
    requires forall i :: 0 <= i < |a| ==> a[i].rights == b[i].rights && a[i].controlType == b[i].controlType
    ensures AggregateRights(Some(a)) == AggregateRights(Some(b))
  {
    SameShapeAllows(a, b, ReadData);
    SameShapeAllows(a, b, WriteData);
  }

  lemma SameShapeAllows(a: seq<Rule>, b: seq<Rule>, right: bv32)
    requires |a| == |b|
    requires forall i :: 0 <= i < |a| ==> a[i].rights == b[i].rights && a[i].controlType == b[i].controlType
    ensures AllowsRight(a, right) == AllowsRight(b, right)
  {
    assert forall i :: 0 <= i < |a| ==> AllowRuleWith(a[i], right) == AllowRuleWith(b[i], right);
  }

  /** When the strict policy grants access because of an explicit Allow,
      the aggregate policy reports the file readable. */
  lemma StrictAllowImpliesAggregateRead(rules: seq<Rule>, k: nat, isInRole: Sid -> bool)
    requires k < |rules| && Decisive(rules[k], isInRole) && rules[k].controlType == Allow
    ensures AggregateRights(Some(rules)).canRead
  {
    assert AllowRuleWith(rules[k], ReadData);
  }

  /** The two policies disagree in both directions: a principal refused by a
      leading Deny still sees the file reported readable, and a file with no
      rule at all passes the strict gate yet is reported with no rights. */
  lemma PoliciesDiverge()
    ensures var isInRole := (sid: Sid) => sid == "S-1-5-32-545";
            var rules := [Rule("S-1-5-32-545", ReadData, Deny), Rule("S-1-5-32-545", ReadData, Allow)];
            && !StrictAccess(Some(rules), isInRole)
            && AggregateRights(Some(rules)).canRead
    ensures StrictAccess(Some([]), (sid: Sid) => true)
    ensures AggregateRights(Some([])) == Rights(false, false)
  {
    var rules := [Rule("S-1-5-32-545", ReadData, Deny), Rule("S-1-5-32-545", ReadData, Allow)];
    assert AllowRuleWith(rules[1], ReadData);
  }

}
