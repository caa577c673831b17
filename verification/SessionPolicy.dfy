/**
  What an external BGP session imports and exports.
*/
module SessionPolicy {
  import opened Wire
  import opened Routes

  datatype ImportRule = ImportRule(prefix: Prefix, minLength: nat, maxLength: nat)

  datatype ExportRule = ExportRule(prefix: Prefix, always: bool)

  datatype Reason = NoRule | OutsideBounds | ExportedPrefix | NoNextHop | NotInstalled

  /** The validated configuration; `restartSeconds` is zero without graceful restart. */
  datatype Policy = Policy(tables: seq<nat>, imports: seq<ImportRule>, exports: seq<ExportRule>, restartSeconds: nat)

  ghost predicate Exports(policy: Policy, p: Prefix) {
    exists i :: 0 <= i < |policy.exports| && policy.exports[i].prefix == p
  }

  /** One of the first rules exports the prefix. */
  ghost predicate ExportsBelow(policy: Policy, p: Prefix, n: nat)
    requires n <= |policy.exports|
  {
    exists i :: 0 <= i < n && policy.exports[i].prefix == p
  }

  /** The rule covers the prefix, whatever its length. */
  predicate Covers(rule: ImportRule, p: Prefix) {
    Contains(rule.prefix, p)
  }

  predicate Allows(rule: ImportRule, p: Prefix) {
    Covers(rule, p) && rule.minLength <= |p.bits| <= rule.maxLength
  }

  ghost predicate Importable(policy: Policy, p: Prefix) {
    !Exports(policy, p) && exists i :: 0 <= i < |policy.imports| && Allows(policy.imports[i], p)
  }

  /**
    Why a learned prefix is not imported, or nothing. Own exports are refused
    before any rule is read; a covering rule's bounds are the better reason.
  */
  method ImportRejection(policy: Policy, p: Prefix) returns (r: Option<Reason>)
    ensures r.None? <==> Importable(policy, p)
    ensures r == Some(ExportedPrefix) <==> Exports(policy, p)
    ensures r == Some(OutsideBounds) ==> exists i :: 0 <= i < |policy.imports| && Covers(policy.imports[i], p)
    ensures r == Some(NoRule) ==> forall i :: 0 <= i < |policy.imports| ==> !Covers(policy.imports[i], p)
    ensures r != Some(NoNextHop) && r != Some(NotInstalled)
  {
    for i := 0 to |policy.exports|
      invariant forall j :: 0 <= j < i ==> policy.exports[j].prefix != p
    {
      if policy.exports[i].prefix == p {
        return Some(ExportedPrefix);
      }
    }
    r := Some(NoRule);
    for i := 0 to |policy.imports|
      invariant forall j :: 0 <= j < i ==> !Allows(policy.imports[j], p)
      invariant r == Some(NoRule) || r == Some(OutsideBounds)
      invariant r == Some(OutsideBounds) ==> exists j :: 0 <= j < i && Covers(policy.imports[j], p)
      invariant r == Some(NoRule) ==> forall j :: 0 <= j < i ==> !Covers(policy.imports[j], p)
    {
      if Covers(policy.imports[i], p) {
        if policy.imports[i].minLength <= |p.bits| <= policy.imports[i].maxLength {
          return None;
        }
        r := Some(OutsideBounds);
      }
    }
  }

  /** Whether a rule's prefix is to be advertised. */
  predicate ExportWanted(rule: ExportRule, eligible: bool, backup: set<Prefix>) {
    eligible && (rule.always || rule.prefix in backup)
  }
}
