/** The check between the two halves of a registration (core/compliance_checker.go). */
module ComplianceChecker {
  import opened Frames
  import opened Text
  import opened ResultNormalizer
  import opened EvaluationRecord

  /** ValidateConfiguration and the two fingerprints, for a configurable primitive. */
  datatype Configuration =
    | NotConfigurable
    | Rejected
    | NoFingerprint
    | Fingerprints(first: Option<string>, second: Option<string>)

  /** What the primitive answers; None is a panic, an error, or a result that does not normalise.
      `source` is present for source-aware primitives and says whether the source is acceptable. */
  datatype Subject =
    | NilSubject
    | Subject(name: Option<string>, version: Option<string>, configuration: Configuration, source: Option<bool>,
              first: Option<Normal>, second: Option<Normal>)

  predicate ConfigurationOk(f: Configuration) {
    f.NotConfigurable? || (f.Fingerprints? && f.first.Some? && f.second == f.first)
  }

  predicate Repeats(p: Subject)
    requires p.Subject?
  {
    p.first.Some? && p.second.Some? && SameBytes(p.first.value, p.second.value)
  }

  predicate Compliant(p: Subject) {
    && p.Subject? && p.name.Some? && p.version.Some? && !Blank(p.version.value)
    && ConfigurationOk(p.configuration) && p.source != Some(false) && Repeats(p)
  }

  /** A compliant primitive returned one result twice. */
  lemma CompliantRepeats(p: Subject)
    requires Compliant(p) && IsNormal(p.first.value) && IsNormal(p.second.value)
    requires SizedNormal(p.first.value) && SizedNormal(p.second.value)
    ensures p.first == p.second
  {
    SameBytesSame(p.first.value, p.second.value);
  }

  class ComplianceReport {
    var compliant: bool
    var violations: seq<string>   // the requirements violated
    var checked: seq<string>

    ghost predicate Valid()
      reads this
    {
      compliant <==> violations == []
    }

    constructor (checked: seq<string>)
      ensures Valid() && compliant && this.checked == checked
    {
      compliant, violations, this.checked := true, [], checked;
    }

    /** addViolation */
    method AddViolation(requirement: string)
      modifies `compliant, `violations
      ensures Valid() && !compliant && violations == old(violations) + [requirement]
    {
      compliant := false;
      violations := violations + [requirement];
    }
  }

  function ProbeViolations(p: Subject): seq<string>
    requires p.Subject?
  {
    if p.first.None? || p.second.None? then ["evaluate_contract"] else if Repeats(p) then [] else ["repeatability"]
  }

  /** Every requirement a primitive violates, as far as the check gets. */
  function Violations(p: Subject): seq<string>
    requires p.Subject?
  {
    if p.name.None? then ["identity"]
    else if p.version.None? || Blank(p.version.value) then ["version"]
    else if !ConfigurationOk(p.configuration) then ["configuration"]
    else (if p.source == Some(false) then ["deterministic_source"] else []) + ProbeViolations(p)
  }

  /** The requirements the check looks at. */
  function Checked(p: Subject): seq<string>
    requires p.Subject?
  {
    if p.name.None? then ["identity"]
    else
      var first := ["version", "evaluate_contract", "repeatability"];
      if p.version.None? || Blank(p.version.value) then first
      else
        var second := first + if p.configuration.NotConfigurable? then [] else ["configuration"];
        if !ConfigurationOk(p.configuration) || p.source.None? then second else second + ["deterministic_source"]
  }

  /** Being compliant is having no violation. */
  lemma CompliantExactly(p: Subject)
    ensures Compliant(p) <==> p.Subject? && Violations(p) == []
  {
  }

  /** The two results can be compared: they are normalised and have Go's sizes. */
  ghost predicate Comparable(p: Subject) {
    p.Subject? && Sound(p.first) && Sound(p.second)
  }

  ghost predicate Sound(n: Option<Normal>) {
    n.Some? ==> IsNormal(n.value) && SizedNormal(n.value)
  }

  /** Identity and version are in order, so the checks of configuration, source and repeatability are reached. */
  predicate Identified(p: Subject)
    requires p.Subject?
  {
    p.name.Some? && p.version.Some? && !Blank(p.version.value)
  }

  predicate StablyConfigured(p: Subject)
    requires p.Subject?
  {
    match p.configuration
    case NotConfigurable => true
    case Rejected => false
    case NoFingerprint => false
    case Fingerprints(first, second) => first.Some? && second.Some? && first.value == second.value
  }

  /** Both probes normalise, and to one result. */
  ghost predicate SameResult(p: Subject)
    requires p.Subject?
  {
    exists n :: p.first == Some(n) && p.second == Some(n)
  }

  lemma RepeatsExactly(p: Subject)
    requires Comparable(p)
    ensures Repeats(p) <==> SameResult(p)
  {
    if p.first.Some? && p.second.Some? { SameBytesSame(p.first.value, p.second.value); }
  }

  /** The verdict without what it rests on: `same` is whether the probes repeat. */
  lemma CompliantGiven(p: Subject, same: bool)
    requires p.Subject? && same == Repeats(p)
    ensures Compliant(p) <==> Identified(p) && StablyConfigured(p) && p.source != Some(false) && same
  {
  }

  lemma StableExactly(f: Configuration, p: Subject)
    requires p.Subject? && p.configuration == f
    ensures StablyConfigured(p) <==> f.NotConfigurable? || exists s :: f == Fingerprints(Some(s), Some(s))
  {
    if StablyConfigured(p) && f.Fingerprints? {
      assert f == Fingerprints(Some(f.first.value), Some(f.first.value));
    }
  }

  /** What a compliant primitive is, field by field. */
  lemma CompliantMeans(p: Subject)
    requires Comparable(p)
    ensures Compliant(p) <==>
      && p.name.Some? && p.version.Some? && !Blank(p.version.value)
      && (p.configuration.NotConfigurable? || exists f :: p.configuration == Fingerprints(Some(f), Some(f)))
      && p.source != Some(false)
      && SameResult(p)
  {
    RepeatsExactly(p);
    CompliantGiven(p, SameResult(p));
    StableExactly(p.configuration, p);
  }

  /** The probes are reached. */
  predicate Probed(p: Subject)
    requires p.Subject?
  {
    Identified(p) && StablyConfigured(p)
  }

  lemma ViolationsGiven(p: Subject, same: bool)
    requires p.Subject? && same == Repeats(p)
    ensures !Identified(p) ==> Violations(p) == [if p.name.None? then "identity" else "version"]
    ensures Identified(p) && !StablyConfigured(p) ==> Violations(p) == ["configuration"]
    ensures Probed(p) ==>
      Violations(p) == (if p.source == Some(false) then ["deterministic_source"] else []) +
        (if p.first.None? || p.second.None? then ["evaluate_contract"] else if same then [] else ["repeatability"])
  {
  }

  lemma DifferentNames()
    ensures "identity" != "version" && "identity" != "configuration" && "version" != "configuration"
    ensures forall s :: s in ["deterministic_source", "evaluate_contract", "repeatability"] ==>
      s !in ["identity", "version", "configuration"]
    ensures "deterministic_source" != "evaluate_contract" && "deterministic_source" != "repeatability"
    ensures "evaluate_contract" != "repeatability"
  {
    assert "identity"[0] == 'i' && "version"[0] == 'v' && "configuration"[0] == 'c';
    assert "deterministic_source"[0] == 'd' && "evaluate_contract"[0] == 'e' && "repeatability"[0] == 'r';
  }

  /** When each requirement is reported as violated; nothing else ever is. */
  lemma ViolationsMean(p: Subject)
    requires Comparable(p)
    ensures "identity" in Violations(p) <==> p.name.None?
    ensures "version" in Violations(p) <==> p.name.Some? && (p.version.None? || Blank(p.version.value))
    ensures "configuration" in Violations(p) <==> Identified(p) && !StablyConfigured(p)
    ensures "deterministic_source" in Violations(p) <==> Probed(p) && p.source == Some(false)
    ensures "evaluate_contract" in Violations(p) <==> Probed(p) && (p.first.None? || p.second.None?)
    ensures "repeatability" in Violations(p) <==> Probed(p) && p.first.Some? && p.second.Some? && !SameResult(p)
    ensures |Violations(p)| == 2 ==> Violations(p)[0] == "deterministic_source"
  {
    RepeatsExactly(p);
    DifferentNames();
    NamedViolations(p, SameResult(p));
  }

  lemma NamedViolations(p: Subject, same: bool)
    requires p.Subject? && same == Repeats(p)
    ensures "identity" in Violations(p) <==> p.name.None?
    ensures "version" in Violations(p) <==> p.name.Some? && (p.version.None? || Blank(p.version.value))
    ensures "configuration" in Violations(p) <==> Identified(p) && !StablyConfigured(p)
    ensures "deterministic_source" in Violations(p) <==> Probed(p) && p.source == Some(false)
    ensures "evaluate_contract" in Violations(p) <==> Probed(p) && (p.first.None? || p.second.None?)
    ensures "repeatability" in Violations(p) <==> Probed(p) && p.first.Some? && p.second.Some? && !same
    ensures |Violations(p)| == 2 ==> Violations(p)[0] == "deterministic_source"
  {
    DifferentNames();
    ViolationsGiven(p, same);
  }

  /** Which requirements are listed as checked. */
  lemma CheckedMeans(p: Subject)
    requires p.Subject?
    ensures p.name.None? ==> Checked(p) == ["identity"]
    ensures p.name.Some? ==> ["version", "evaluate_contract", "repeatability"] <= Checked(p)
    ensures "configuration" in Checked(p) <==> Identified(p) && !p.configuration.NotConfigurable?
    ensures "deterministic_source" in Checked(p) <==> Identified(p) && StablyConfigured(p) && p.source.Some?
    ensures |Checked(p)| <= 5 && forall i, j :: 0 <= i < j < |Checked(p)| ==> Checked(p)[i] != Checked(p)[j]
  {
  }

  /** The two probes. */
  method ProbeTwice(p: Subject, report: ComplianceReport)
    requires p.Subject? && report.Valid()
    modifies report`compliant, report`violations
    ensures report.Valid() && report.violations == old(report.violations) + ProbeViolations(p)
  {
    if p.first.None? || p.second.None? {
      report.AddViolation("evaluate_contract");
    } else if !SameBytes(p.first.value, p.second.value) {
      report.AddViolation("repeatability");
    }
  }

  /** CheckPrimitive; None is the error for a nil primitive. */
  method CheckPrimitive(p: Subject) returns (r: Option<ComplianceReport>)
    ensures r.Some? <==> p.Subject?
    ensures r.Some? ==> fresh(r.value) && r.value.checked == Checked(p) && r.value.violations == Violations(p)
    ensures r.Some? ==> (r.value.compliant <==> Compliant(p))
  {
    if p.NilSubject? { return None; }
    if p.name.None? {
      var unnamed := new ComplianceReport(["identity"]);
      unnamed.AddViolation("identity");
      return Some(unnamed);
    }
    var report := new ComplianceReport(["version", "evaluate_contract", "repeatability"]);
    r := Some(report);
    if p.version.None? || Blank(p.version.value) {
      report.AddViolation("version");
      return;
    }
    if !p.configuration.NotConfigurable? {
      report.checked := report.checked + ["configuration"];
      if !ConfigurationOk(p.configuration) {
        report.AddViolation("configuration");
        return;
      }
    }
    if p.source.Some? {
      report.checked := report.checked + ["deterministic_source"];
      if !p.source.value {
        report.AddViolation("deterministic_source");
      }
    }
    ProbeTwice(p, report);
    CompliantExactly(p);
  }
}
