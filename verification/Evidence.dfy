/**
 Evidence for one completed check, and the proof that the engine's own reports always pass its
 semantic validation.
 */
module Evidence {
  import opened Arithmetic
  import opened Bytes
  import opened Records
  import opened Findings

  datatype Evidence = Evidence(
    fingerprintIsV2: bool, contractSourceDigest: string, compiledPlanDigest: string, schemaDigest: string,
    engineName: string, engineVersion: string, operation: string, maxSamples: nat,
    valid: bool, violationCount: nat, outputRecords: nat, truncated: bool,
    resultDigest: string, reportDigest: string, findingsDigest: string, metricsDigest: string)

  datatype Rejection =
    | WrongFingerprint | BadDigest | WrongEngine | WrongOperation
    | ValidityMismatch | TooManyRecords | OverSampleLimit | TruncationMismatch

  datatype Verdict = Accepted | Rejected(reason: Rejection)

  // ----- tagged digests ----------------------------------------------------------------------------

  const HEX_DIGITS: string := "0123456789abcdef"

  predicate LowerHex(c: char) { '0' <= c <= '9' || 'a' <= c <= 'f' }

  /** Two lower-case digits per byte. */
  function Hex(bytes: seq<byte>): (s: string)
    ensures |s| == 2 * |bytes| && forall c | c in s :: LowerHex(c)
  {
    if bytes == [] then []
    else [HEX_DIGITS[bytes[0] / 16], HEX_DIGITS[bytes[0] % 16]] + Hex(bytes[1..])
  }

  function Tagged(prefix: string, digest: Digest): string { prefix + Hex(digest) }

  /** `validate_tagged_digest`. */
  predicate IsTagged(value: string, prefix: string) {
    prefix <= value && |value| - |prefix| == 64 && forall c | c in value[|prefix|..] :: LowerHex(c)
  }

  /** `validate_tagged_digest_any`. */
  predicate IsTaggedAny(value: string, prefixes: seq<string>) {
    exists i :: 0 <= i < |prefixes| && IsTagged(value, prefixes[i])
  }

  lemma TaggedIsTagged(prefix: string, digest: Digest)
    ensures IsTagged(Tagged(prefix, digest), prefix)
  {
    assert Tagged(prefix, digest)[|prefix|..] == Hex(digest);
  }

  lemma TaggedIsTaggedAny(prefixes: seq<string>, i: nat, digest: Digest)
    requires i < |prefixes|
    ensures IsTaggedAny(Tagged(prefixes[i], digest), prefixes)
  {
    TaggedIsTagged(prefixes[i], digest);
  }

  /** A tagged digest is its prefix and sixty-four characters, each a digit or one of the letters a to f. */
  lemma TaggedMeans(value: string, prefix: string)
    ensures IsTagged(value, prefix) <==>
            && |value| == |prefix| + 64 && value[..|prefix|] == prefix
            && forall i | |prefix| <= i < |value| :: '0' <= value[i] <= '9' || 'a' <= value[i] <= 'f'
  {
    if prefix <= value {
      assert value[..|prefix|] == prefix;
      forall i | |prefix| <= i < |value| ensures value[i] in value[|prefix|..] {
        assert value[i] == value[|prefix|..][i - |prefix|];
      }
    }
  }

  /** Byte i of a digest is written as its high and then its low hexadecimal digit. */
  lemma {:induction false} HexMeans(bytes: seq<byte>, i: nat)
    requires i < |bytes|
    ensures Hex(bytes)[2 * i] == HEX_DIGITS[bytes[i] / 16] && Hex(bytes)[2 * i + 1] == HEX_DIGITS[bytes[i] % 16]
  {
    if i > 0 {
      HexMeans(bytes[1..], i - 1);
    }
  }

  const CONTRACT_PREFIXES: seq<string> := ["pf-contract-v1:", "pf-contract-v2:"]
  const PLAN_PREFIXES: seq<string> := ["pf-plan-v1:", "pf-plan-v2:"]
  const ENGINE_VERSION: string := "0.7.2"

  // ----- validation --------------------------------------------------------------------------------

  predicate IsSpace(c: char) { c == ' ' || '\t' <= c <= '\r' }

  /** Nothing is left of the text after trimming. */
  predicate Blank(s: string) { forall c | c in s :: IsSpace(c) }

  /** `EvidenceV2::validate`, check by check in its order. */
  function Validate(e: Evidence): Verdict {
    if !e.fingerprintIsV2 then Rejected(WrongFingerprint)
    else if !IsTaggedAny(e.contractSourceDigest, CONTRACT_PREFIXES) then Rejected(BadDigest)
    else if !IsTaggedAny(e.compiledPlanDigest, PLAN_PREFIXES) then Rejected(BadDigest)
    else if !IsTagged(e.schemaDigest, "pf-schema-v1:") then Rejected(BadDigest)
    else if !IsTagged(e.resultDigest, "pf-result-v1:") then Rejected(BadDigest)
    else if !IsTagged(e.reportDigest, "pf-report-v1:") then Rejected(BadDigest)
    else if !IsTagged(e.findingsDigest, "pf-findings-v1:") then Rejected(BadDigest)
    else if !IsTagged(e.metricsDigest, "pf-metrics-v1:") then Rejected(BadDigest)
    else if e.engineName != "proofframe" || Blank(e.engineVersion) then Rejected(WrongEngine)
    else if e.operation != "check" then Rejected(WrongOperation)
    else if e.valid != (e.violationCount == 0) then Rejected(ValidityMismatch)
    else if e.outputRecords > e.violationCount then Rejected(TooManyRecords)
    else if e.outputRecords > e.maxSamples then Rejected(OverSampleLimit)
    else if e.truncated != (e.outputRecords < e.violationCount) then Rejected(TruncationMismatch)
    else Accepted
  }

  /** The digests one check binds; the hashed documents themselves are opaque here. */
  datatype Digests = Digests(contractSource: Digest, compiledPlan: Digest, schema: Digest,
                             result: Digest, report: Digest, findings: Digest, metrics: Digest)

  /** `evidence_for_check`, up to its final validation. */
  function EvidenceForCheck(report: Report, maxSamples: nat, fingerprintIsV2: bool, contractVersion: nat,
                            planVersion: nat,
                            digests: Digests): Evidence
    requires contractVersion < |CONTRACT_PREFIXES| && planVersion < |PLAN_PREFIXES|
  {
    Evidence(fingerprintIsV2, Tagged(CONTRACT_PREFIXES[contractVersion], digests.contractSource),
             Tagged(PLAN_PREFIXES[planVersion], digests.compiledPlan), Tagged("pf-schema-v1:", digests.schema),
             "proofframe", ENGINE_VERSION, "check", maxSamples,
             report.valid, report.violationCount, |report.findings|, report.truncated,
             Tagged("pf-result-v1:", digests.result), Tagged("pf-report-v1:", digests.report),
             Tagged("pf-findings-v1:", digests.findings), Tagged("pf-metrics-v1:", digests.metrics))
  }

  /** A report the engine produced is rejected only for carrying another fingerprint version. */
  lemma EngineReportsValidate(report: Report, planLimit: nat, maxSamples: nat, fingerprintIsV2: bool,
                              contractVersion: nat, planVersion: nat, digests: Digests)
    requires contractVersion < |CONTRACT_PREFIXES| && planVersion < |PLAN_PREFIXES|
    requires Consistent(report, Smaller(planLimit, maxSamples))
    ensures var e := EvidenceForCheck(report, maxSamples, fingerprintIsV2, contractVersion, planVersion, digests);
            Validate(e) == if fingerprintIsV2 then Accepted else Rejected(WrongFingerprint)
  {
    EngineDigestsTagged(report, maxSamples, fingerprintIsV2, contractVersion, planVersion, digests);
  }

  /** Evidence the engine builds passes every check that does not look at counts. */
  lemma EngineDigestsTagged(report: Report, maxSamples: nat, fingerprintIsV2: bool, contractVersion: nat,
                            planVersion: nat, digests: Digests)
    requires contractVersion < |CONTRACT_PREFIXES| && planVersion < |PLAN_PREFIXES|
    ensures var e := EvidenceForCheck(report, maxSamples, fingerprintIsV2, contractVersion, planVersion, digests);
            && IsTaggedAny(e.contractSourceDigest, CONTRACT_PREFIXES) &&
              IsTaggedAny(e.compiledPlanDigest, PLAN_PREFIXES)
            && IsTagged(e.schemaDigest, "pf-schema-v1:") && IsTagged(e.resultDigest, "pf-result-v1:")
            && IsTagged(e.reportDigest, "pf-report-v1:") && IsTagged(e.findingsDigest, "pf-findings-v1:")
            && IsTagged(e.metricsDigest, "pf-metrics-v1:") && e.engineName == "proofframe" && !Blank(e.engineVersion)
  {
    TaggedIsTaggedAny(CONTRACT_PREFIXES, contractVersion, digests.contractSource);
    TaggedIsTaggedAny(PLAN_PREFIXES, planVersion, digests.compiledPlan);
    TaggedIsTagged("pf-schema-v1:", digests.schema);
    TaggedIsTagged("pf-result-v1:", digests.result);
    TaggedIsTagged("pf-report-v1:", digests.report);
    TaggedIsTagged("pf-findings-v1:", digests.findings);
    TaggedIsTagged("pf-metrics-v1:", digests.metrics);
    assert ENGINE_VERSION[0] in ENGINE_VERSION && !IsSpace('0');
  }

  /** Evidence binds every digest of the check behind its own tag. */
  lemma EvidenceBinds(report: Report, maxSamples: nat, fingerprintIsV2: bool, contractVersion: nat,
                      planVersion: nat, digests: Digests)
    requires contractVersion < |CONTRACT_PREFIXES| && planVersion < |PLAN_PREFIXES|
    ensures var e := EvidenceForCheck(report, maxSamples, fingerprintIsV2, contractVersion, planVersion, digests);
            && e.contractSourceDigest == (if contractVersion == 0 then "pf-contract-v1:" else "pf-contract-v2:") +
              Hex(digests.contractSource)
            && e.compiledPlanDigest == (if planVersion == 0 then "pf-plan-v1:" else "pf-plan-v2:") +
              Hex(digests.compiledPlan)
            && e.schemaDigest == "pf-schema-v1:" + Hex(digests.schema)
            && e.resultDigest == "pf-result-v1:" + Hex(digests.result)
            && e.reportDigest == "pf-report-v1:" + Hex(digests.report)
            && e.findingsDigest == "pf-findings-v1:" + Hex(digests.findings)
            && e.metricsDigest == "pf-metrics-v1:" + Hex(digests.metrics)
  {
  }

  lemma ContractTags(value: string)
    ensures IsTaggedAny(value, CONTRACT_PREFIXES) <==>
            IsTagged(value, "pf-contract-v1:") || IsTagged(value, "pf-contract-v2:")
    ensures IsTaggedAny(value, PLAN_PREFIXES) <==> IsTagged(value, "pf-plan-v1:") || IsTagged(value, "pf-plan-v2:")
  {
    assert CONTRACT_PREFIXES[0] == "pf-contract-v1:" && CONTRACT_PREFIXES[1] == "pf-contract-v2:";
    assert PLAN_PREFIXES[0] == "pf-plan-v1:" && PLAN_PREFIXES[1] == "pf-plan-v2:";
  }

  /** What accepted evidence says of its digests, its engine and its operation. */
  lemma AcceptedIdentity(e: Evidence)
    requires Validate(e).Accepted?
    ensures e.fingerprintIsV2
    ensures IsTagged(e.contractSourceDigest, "pf-contract-v1:") || IsTagged(e.contractSourceDigest, "pf-contract-v2:")
    ensures IsTagged(e.compiledPlanDigest, "pf-plan-v1:") || IsTagged(e.compiledPlanDigest, "pf-plan-v2:")
    ensures IsTagged(e.schemaDigest, "pf-schema-v1:") && IsTagged(e.resultDigest, "pf-result-v1:")
    ensures IsTagged(e.reportDigest, "pf-report-v1:") && IsTagged(e.findingsDigest, "pf-findings-v1:")
    ensures IsTagged(e.metricsDigest, "pf-metrics-v1:")
    ensures e.engineName == "proofframe" && e.operation == "check"
    ensures exists i :: 0 <= i < |e.engineVersion| && e.engineVersion[i] != ' ' && !('\t' <= e.engineVersion[i] <= '\r')
  {
    ContractTags(e.contractSourceDigest);
    ContractTags(e.compiledPlanDigest);
    var c :| c in e.engineVersion && !IsSpace(c);
    var i :| 0 <= i < |e.engineVersion| && e.engineVersion[i] == c;
  }

  /** Accepted evidence never overstates what was retained, and its flags tell the truth about its counts. */
  lemma AcceptedCounts(e: Evidence)
    requires Validate(e).Accepted?
    ensures e.outputRecords <= e.violationCount && e.outputRecords <= e.maxSamples
    ensures (e.valid <==> e.violationCount == 0) && (e.truncated <==> e.outputRecords < e.violationCount)
  {
  }

  /** Evidence about any report at all is accepted exactly when the report's counts and flags agree. */
  lemma ReportsAccepted(report: Report, maxSamples: nat, fingerprintIsV2: bool, contractVersion: nat, planVersion: nat,
                        digests: Digests)
    requires contractVersion < |CONTRACT_PREFIXES| && planVersion < |PLAN_PREFIXES|
    ensures var e := EvidenceForCheck(report, maxSamples, fingerprintIsV2, contractVersion, planVersion, digests);
            Validate(e).Accepted? <==>
              && fingerprintIsV2 && |report.findings| <= report.violationCount && |report.findings| <= maxSamples
              && (report.valid <==> report.violationCount == 0)
              && (report.truncated <==> |report.findings| < report.violationCount)
  {
    EngineDigestsTagged(report, maxSamples, fingerprintIsV2, contractVersion, planVersion, digests);
  }
}
