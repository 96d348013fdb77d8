/**
 * Certificate chains: the issuer loop of chain validation, and its path-length rule against the
 * running counter of RFC 5280.
 */
module CertPath {
  import opened Bytes

  const MAX_CHAIN_CERTS: nat := 12

  datatype BasicConstraints = BasicConstraints(critical: bool, ca: bool, pathLen: Option<nat>)

  /** What chain validation reads of a certificate; the rest is identified by `content`. */
  datatype Certificate = Certificate(
    subject: nat,
    issuer: nat,
    basic: Option<BasicConstraints>,
    keyCertSign: bool,
    content: nat
  ) {
    predicate SelfIssued() { subject == issuer }

    predicate IsIssuer() { basic.Some? && basic.value.ca && basic.value.critical && keyCertSign }

    function Limit(): Option<nat> {
      if basic.Some? then basic.value.pathLen else None
    }
  }

  /**
   * The checks this model does not open: validity and usage of one certificate (told whether it is
   * the leaf), the leaf's own rules, and whether the second certificate's key signed the first.
   */
  datatype Checks = Checks(
    usable: (Certificate, bool) -> bool, leaf: Certificate -> bool, signed: (Certificate, Certificate) -> bool)

  //
  // Path lengths
  //

  /** How many certificates strictly between the leaf and position `i` are not self-issued. */
  function CasBelow(certs: seq<Certificate>, i: nat): (n: nat)
    requires i <= |certs|
    ensures n <= i
  {
    if i <= 1 then 0 else CasBelow(certs, i - 1) + if certs[i - 1].SelfIssued() then 0 else 1
  }

  predicate WithinLimit(certs: seq<Certificate>, i: nat)
    requires i < |certs|
  {
    certs[i].Limit().Some? ==> CasBelow(certs, i) <= certs[i].Limit().value
  }

  /**
   * Steps (l) and (m) of section 6.1.4 of RFC 5280, from position `i` down to the leaf's issuer: a
   * certificate that is not self-issued needs a positive counter and lowers it, and a constraint
   * below the counter replaces it.
   */
  predicate Countdown(certs: seq<Certificate>, i: nat, maxPathLength: nat)
    requires i < |certs|
  {
    i == 0 ||
    ((certs[i].SelfIssued() || maxPathLength > 0) &&
     var lowered := if certs[i].SelfIssued() then maxPathLength else maxPathLength - 1;
     var limit := certs[i].Limit();
     Countdown(certs, i - 1, if limit.Some? && limit.value < lowered then limit.value else lowered))
  }

  lemma {:induction false} CountdownMeans(certs: seq<Certificate>, i: nat, maxPathLength: nat)
    requires i < |certs|
    ensures Countdown(certs, i, maxPathLength) <==>
            CasBelow(certs, i + 1) <= maxPathLength && forall k :: 0 < k <= i ==> WithinLimit(certs, k)
  {
    if i > 0 {
      var lowered := if certs[i].SelfIssued() then maxPathLength else maxPathLength - 1;
      var limit := certs[i].Limit();
      assert (forall k :: 0 < k <= i ==> WithinLimit(certs, k)) <==>
             WithinLimit(certs, i) && forall k :: 0 < k <= i - 1 ==> WithinLimit(certs, k);
      if lowered >= 0 {
        CountdownMeans(certs, i - 1, if limit.Some? && limit.value < lowered then limit.value else lowered);
      }
    }
  }

  /** The per-issuer counts pass exactly when the counter, started at the chain's length, passes. */
  lemma PathLengthEquivalence(certs: seq<Certificate>)
    requires certs != []
    ensures (forall k :: 0 < k < |certs| ==> WithinLimit(certs, k)) <==> Countdown(certs, |certs| - 1, |certs|)
  {
    CountdownMeans(certs, |certs| - 1, |certs|);
  }

  //
  // Whole chains
  //

  /** The position of the first root whose name is the tail's issuer and whose key signed it. */
  ghost predicate IsFirstAnchor(checks: Checks, roots: seq<Certificate>, tail: Certificate, k: nat)
    requires k < |roots|
  {
    && roots[k].subject == tail.issuer && checks.signed(tail, roots[k])
    && forall j :: 0 <= j < k ==> roots[j].subject != tail.issuer || !checks.signed(tail, roots[j])
  }

  ghost predicate HasAnchor(checks: Checks, roots: seq<Certificate>, tail: Certificate) {
    exists k :: 0 <= k < |roots| && IsFirstAnchor(checks, roots, tail, k)
  }

  function FirstAnchor(checks: Checks, roots: seq<Certificate>, tail: Certificate): (k: nat)
    ensures k <= |roots|
    ensures k < |roots| ==> IsFirstAnchor(checks, roots, tail, k)
    ensures k == |roots| ==>
              forall j :: 0 <= j < |roots| ==> roots[j].subject != tail.issuer || !checks.signed(tail, roots[j])
  {
    if roots == [] || (tail.issuer == roots[0].subject && checks.signed(tail, roots[0])) then 0
    else
      var n := FirstAnchor(checks, roots[1..], tail);
      assert forall j :: 0 < j < |roots| ==> roots[j] == roots[1..][j - 1];
      1 + n
  }

  /** The chain as sent, or with the first pinned root that signed its last certificate put behind it. */
  function Complete(checks: Checks, roots: seq<Certificate>, sent: seq<Certificate>): (r: Option<seq<Certificate>>)
    requires sent != []
    ensures r.Some? ==> sent <= r.value && r.value[|r.value| - 1] in roots
    ensures sent[|sent| - 1] in roots ==> r == Some(sent)
    ensures sent[|sent| - 1] !in roots ==>
              (r.Some? <==> |sent| < MAX_CHAIN_CERTS && HasAnchor(checks, roots, sent[|sent| - 1]))
    ensures forall k :: 0 <= k < |roots| && IsFirstAnchor(checks, roots, sent[|sent| - 1], k) ==>
              sent[|sent| - 1] !in roots && r.Some? ==> r.value == sent + [roots[k]]
  {
    var tail := sent[|sent| - 1];
    if tail in roots then Some(sent)
    else
      var k := FirstAnchor(checks, roots, tail);
      if k == |roots| || |sent| >= MAX_CHAIN_CERTS then None else Some(sent + [roots[k]])
  }

  /**
   * A certification path: usable certificates, each but the leaf a critical CA that may sign certificates and
   * signed the one before it, RFC 5280 path lengths, a good leaf and a self-signed root.
   */
  ghost predicate PathOk(checks: Checks, certs: seq<Certificate>) {
    && |certs| >= 2
    && LinksOk(checks, certs)
    && Countdown(certs, |certs| - 1, |certs|)
    && checks.leaf(certs[0])
    && certs[|certs| - 1].subject == certs[|certs| - 1].issuer
    && checks.signed(certs[|certs| - 1], certs[|certs| - 1])
  }

  ghost predicate LinksOk(checks: Checks, certs: seq<Certificate>)
    requires certs != []
  {
    && checks.usable(certs[0], true)
    && forall i :: 0 < i < |certs| ==>
         && checks.usable(certs[i], false)
         && certs[i].basic.Some? && certs[i].basic.value.ca && certs[i].basic.value.critical && certs[i].keyCertSign
         && checks.signed(certs[i - 1], certs[i])
  }

  /** The certificates that may be sent: at least one, at most twelve, no two alike. */
  ghost predicate Sendable(decoded: seq<Certificate>) {
    && 0 < |decoded| <= MAX_CHAIN_CERTS
    && forall i, j :: 0 <= i < j < |decoded| ==> decoded[i] != decoded[j]
  }

  /** Collects decoded certificates up to the limit, then looks for duplicates. */
  method CollectCertificates(decoded: seq<Certificate>) returns (ok: bool)
    ensures ok <==> Sendable(decoded)
  {
    var certs: seq<Certificate> := [];
    for i := 0 to |decoded|
      invariant certs == decoded[..i] && i <= MAX_CHAIN_CERTS
    {
      certs := certs + [decoded[i]];
      if |certs| > MAX_CHAIN_CERTS {
        return false;
      }
    }
    assert certs == decoded;
    if certs == [] {
      return false;
    }
    var seen: set<Certificate> := {};
    for i := 0 to |certs|
      invariant seen == set k | 0 <= k < i :: certs[k]
      invariant forall j, k :: 0 <= j < k < i ==> certs[j] != certs[k]
    {
      if certs[i] in seen {
        return false;
      }
      seen := seen + {certs[i]};
    }
    ok := true;
  }

  /** The checks of certificate `i` in the issuer loop, without its path length. */
  predicate LinkPasses(checks: Checks, certs: seq<Certificate>, i: nat)
    requires i < |certs|
  {
    checks.usable(certs[i], i == 0) && (i == 0 || (certs[i].IsIssuer() && checks.signed(certs[i - 1], certs[i])))
  }

  lemma LinksExactly(checks: Checks, certs: seq<Certificate>)
    requires certs != []
    ensures LinksOk(checks, certs) <==> forall i :: 0 <= i < |certs| ==> LinkPasses(checks, certs, i)
  {
    if forall i :: 0 <= i < |certs| ==> LinkPasses(checks, certs, i) {
      assert LinkPasses(checks, certs, 0);
      forall i | 0 < i < |certs|
        ensures checks.usable(certs[i], false) && certs[i].IsIssuer() && checks.signed(certs[i - 1], certs[i])
      {
        assert LinkPasses(checks, certs, i);
      }
    }
  }

  method CheckLinks(checks: Checks, certs: seq<Certificate>) returns (ok: bool)
    requires certs != []
    ensures ok <==> LinksOk(checks, certs) && Countdown(certs, |certs| - 1, |certs|)
  {
    PathLengthEquivalence(certs);
    LinksExactly(checks, certs);
    for i := 0 to |certs|
      invariant forall k :: 0 <= k < i ==> LinkPasses(checks, certs, k)
      invariant forall k :: 0 < k < i ==> WithinLimit(certs, k)
    {
      if !LinkPasses(checks, certs, i) {
        return false;
      }
      if i > 0 && !WithinLimit(certs, i) {
        return false;
      }
    }
    ok := true;
  }

  /** Accepts exactly the sendable chains that complete to a certification path, and returns that path. */
  method ValidateChain(checks: Checks, roots: seq<Certificate>, decoded: seq<Certificate>)
    returns (r: Option<seq<Certificate>>)
    ensures r.Some? <==>
            && Sendable(decoded)
            && Complete(checks, roots, decoded).Some?
            && PathOk(checks, Complete(checks, roots, decoded).value)
    ensures r.Some? ==> r == Complete(checks, roots, decoded)
  {
    if roots == [] {
      return None;
    }
    var sendable := CollectCertificates(decoded);
    if !sendable {
      return None;
    }
    var completed := Complete(checks, roots, decoded);
    if completed.None? || |completed.value| < 2 {
      return None;
    }
    var certs := completed.value;
    var linked := CheckLinks(checks, certs);
    if !linked || !checks.leaf(certs[0]) {
      return None;
    }
    var root := certs[|certs| - 1];
    r := if root.SelfIssued() && checks.signed(root, root) then Some(certs) else None;
  }
}
