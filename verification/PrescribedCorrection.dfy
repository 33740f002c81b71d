/**
 * matchesPrescribedAnswerCorrection: a candidate is accepted when it is what the reviewed correction of the source
 * gives, recomputed from the source.
 */
module PrescribedCorrection {
  import opened Wrappers
  import opened AdditiveManifest
  import opened CorrectionRules
  import opened AnswerCorrections
  import opened CanonicalJson
  import Match = ManifestMatch

  /** How a manifest is written as JSON: its alias rows, and all its other fields. */
  type Writing = GridManifest -> Match.Manifest

  ghost predicate SameUpToAliases(m: GridManifest, n: GridManifest) {
    n == m.(aliases := n.aliases) && multiset(m.aliases) == multiset(n.aliases)
  }

  /** The JSON form is printable, and says what the manifest says. */
  ghost predicate WritesAll(le: Collation, write: Writing) {
    && (forall m :: Match.ValidManifest(write(m)) && Match.Collated(le, write(m)))
    && (forall m, n :: SameWritten(write(m), write(n)) <==> SameUpToAliases(m, n))
  }

  function ComparedText(le: Collation, m: Match.Manifest): Text {
    Stable(le, Match.Comparison(le, m))
  }

  /** Equal fields, and the same alias rows in some order. */
  ghost predicate SameWritten(m: Match.Manifest, n: Match.Manifest) {
    DenoteFields(m.rest) == DenoteFields(n.rest) && multiset(DenoteItems(m.aliases)) == multiset(DenoteItems(n.aliases))
  }

  /** The correction the candidate says it is: its own version, preparation time, batch, reviewer and approval time. */
  ghost function Recomputed(rules: Rules, source: GridManifest, catalog: GridManifest, candidate: GridManifest): Option<GridManifest> {
    if candidate.release.preparedAt.None? then None
    else
      Corrected(rules, source, catalog, candidate.version, candidate.release.preparedAt.value, candidate.release.batch,
                candidate.release.approvedBy, candidate.release.approvedAt)
  }

  /** A corrected release is what is recomputed from it, whatever it was corrected with. */
  lemma GenuineIsRecomputed(rules: Rules, source: GridManifest, catalog: GridManifest, version: nat, at: Id, batch: Option<Id>,
                            reviewer: Approval, approvedAt: Id)
    requires BatchesApart(rules)
    requires Corrected(rules, source, catalog, version, at, batch, reviewer, approvedAt).Some?
    ensures var c := Corrected(rules, source, catalog, version, at, batch, reviewer, approvedAt);
      Recomputed(rules, source, catalog, c.value) == c
  {
    if batch.None? && source.release.batch.Some? {
      DefaultAfterNamed(rules, source, catalog, version, at, reviewer, approvedAt);
    }
  }

  lemma SamePasses(source: GridManifest, m: GridManifest, n: GridManifest)
    requires Additive(source, m) && SameUpToAliases(m, n)
    ensures Additive(source, n)
  {
  }

  /** What is accepted passes the additive gate over its source, holds the correction of its batch and only this, and has
      every cell complete and everything reviewed. */
  ghost predicate Sound(rules: Rules, source: GridManifest, catalog: GridManifest, candidate: GridManifest)
    requires candidate.release.preparedAt.Some?
  {
    && rules.batches(candidate.release.batch).Some?
    && var batch := rules.batches(candidate.release.batch).value;
    && Additive(source, candidate)
    && HoldsCorrection(ContextOf(rules, catalog, candidate.release.preparedAt.value, batch), source, candidate, batch)
    && Served(source.boards, candidate.boards, candidate.memberships)
    && Recorded(source, catalog, candidate, candidate.version, candidate.release.preparedAt.value, candidate.release.batch, batch.source,
                candidate.release.approvedBy, candidate.release.approvedAt)
    && (forall s | s in candidate.sources :: s.approved) && (forall b | b in candidate.boards :: b.approvedBy != Unreviewed)
  }

  lemma AcceptedIsSound(rules: Rules, source: GridManifest, catalog: GridManifest, candidate: GridManifest)
    requires Recomputed(rules, source, catalog, candidate).Some?
    requires Additive(source, Recomputed(rules, source, catalog, candidate).value)
    requires SameUpToAliases(Recomputed(rules, source, catalog, candidate).value, candidate)
    ensures Sound(rules, source, catalog, candidate)
  {
    var again := Recomputed(rules, source, catalog, candidate).value;
    var release := candidate.release;
    var batch := rules.batches(release.batch).value;
    CorrectedHolds(rules, source, catalog, candidate.version, release.preparedAt.value, release.batch, release.approvedBy, release.approvedAt);
    SamePasses(source, again, candidate);
    SameContent(ContextOf(rules, catalog, release.preparedAt.value, batch), source, again, batch, candidate);
  }

  /**
   * Accepted is exactly the recomputed release up to the order of its alias rows; the call fails exactly when nothing can
   * be recomputed, and what was never prepared is refused.
   */
  method MatchesPrescribed(le: Collation, hash: Hash, write: Writing,
                           rules: Rules, source: GridManifest, catalog: GridManifest, candidate: GridManifest)
    returns (r: Result<bool>)
    requires UniqueKeys(source) && WritesAll(le, write)
    requires Recomputed(rules, source, catalog, candidate).Some? ==>
      Apart(hash, ComparedText(le, write(Recomputed(rules, source, catalog, candidate).value)), ComparedText(le, write(candidate)))
    ensures candidate.release.preparedAt.None? ==> r == Ok(false)
    ensures candidate.release.preparedAt.Some? ==> (r.Ok? <==> Recomputed(rules, source, catalog, candidate).Some?)
    ensures candidate.release.preparedAt.Some? && r.Ok? ==>
      (r.value <==> SameUpToAliases(Recomputed(rules, source, catalog, candidate).value, candidate))
    ensures r == Ok(true) ==> Sound(rules, source, catalog, candidate)
  {
    if candidate.release.preparedAt.None? {
      return Ok(false);
    }
    var release := candidate.release;
    var again := CorrectAndApprove(rules, source, catalog, candidate.version, release.preparedAt.value, release.batch,
                                   release.approvedBy, release.approvedAt);
    if again.Err? {
      return Err(again.error);
    }
    Match.MatchExact(le, hash, write(again.value), write(candidate));
    assert SameWritten(write(again.value), write(candidate)) <==> SameUpToAliases(again.value, candidate);
    r := Ok(Match.RelabelManifestsMatch(le, hash, write(again.value), write(candidate)));
    if r.value {
      AcceptedIsSound(rules, source, catalog, candidate);
    }
  }
}
