/**
 * prepareCatalogCoverage: a draft takes over every catalog membership and every audited fact on its own criteria, or
 * lists it as unresolved; then its cells are completed.
 */
module CatalogCoverage {
  import opened Wrappers
  import opened ReleaseContent
  import opened AdditiveManifest
  import opened CellCompletion
  import opened CorrectionRules
  import opened AnswerCorrections
  import opened CoverageRules

  /** A known source stays what it was; a new one is the catalog's, waiting for review. */
  ghost predicate SourcesTaken(s: Scope, sources: seq<Source>) {
    forall key | FindSource(sources, key).Some? ::
      if FindSource(s.draft.sources, key).Some? then FindSource(sources, key) == FindSource(s.draft.sources, key)
      else FindSource(s.catalog.sources, key).Some?
           && FindSource(sources, key).value == FindSource(s.catalog.sources, key).value.(approved := false, owner := Unreviewed)
  }

  /** Every new row of the sources is a copy of the catalog's, for review. */
  ghost predicate Copies(s: Scope, sources: seq<Source>) {
    forall r | r in sources ::
      || r in s.draft.sources
      || exists c | c in s.catalog.sources :: r == Source(c.key, c.dataset, c.provider, false, Unreviewed, c.at, c.rest)
  }

  /** The images of new players are there. */
  ghost predicate ImagesThere(s: Scope, m: GridManifest) {
    forall p | p in m.players :: p in s.draft.players || p.image in m.assets
  }

  /** A known player stays who it was; a new one is the catalog's and may be taken over. */
  ghost predicate PlayersTaken(s: Scope, players: seq<Player>) {
    && (forall id | LastPlayer(s.draft.players, id).Some? :: LastPlayer(players, id) == LastPlayer(s.draft.players, id))
    && (forall id | LastPlayer(s.draft.players, id).None? && LastPlayer(players, id).Some? ::
          Donated(s, id) && !PersonRefused(s, id) && LastPlayer(players, id) == LastPlayer(s.catalog.players, id))
  }

  /** The aliases are the draft's, and all of the catalog's for the new players. */
  ghost predicate AliasesTaken(s: Scope, m: GridManifest) {
    forall a :: a in m.aliases <==> a in s.draft.aliases || (a in s.catalog.aliases && HasPlayer(m, a.player) && !HasPlayer(s.draft, a.player))
  }

  ghost predicate MembersTaken(s: Scope, memberships: seq<Membership>) {
    forall m | m in memberships :: m in s.draft.memberships || (Resolvable(s, m.player) && !PersonRefused(s, m.player))
  }

  /** New players have new memberships, and who is unresolved has an unresolved fact. */
  ghost predicate Tied(s: Scope, m: GridManifest, unresolved: seq<(Id, Id)>, people: set<Id>) {
    && (forall p | p in m.players :: p in s.draft.players || (p in s.catalog.players && Gains(s, m.memberships, p.id)))
    && (forall r | r in m.memberships :: r in s.draft.memberships || HasPlayer(m, r.player))
    && (forall id | id in people :: exists u | u in unresolved :: u.1 == id)
  }

  /** A fact is accounted for: it is a membership, or it is listed as unresolved. */
  ghost predicate Accounted(memberships: seq<Membership>, unresolved: seq<(Id, Id)>, criterion: Id, player: Id) {
    IsMember(memberships, criterion, player) || (criterion, player) in unresolved
  }

  lemma AccountedKept(ms: seq<Membership>, un: seq<(Id, Id)>, ms': seq<Membership>, un': seq<(Id, Id)>)
    requires ms <= ms' && un <= un'
    ensures forall c, p | Accounted(ms, un, c, p) :: Accounted(ms', un', c, p)
  {
    PrefixAllIn(ms, ms');
    PrefixAllIn(un, un');
  }

  lemma LastPlayerAppend(players: seq<Player>, row: Player, id: Id)
    ensures LastPlayer(players + [row], id) == if row.id == id then Some(row) else LastPlayer(players, id)
  {
    assert (players + [row])[..|players|] == players;
  }

  /** The draft with a player of the catalog taken over. */
  function WithDonor(s: Scope, m: GridManifest, id: Id): GridManifest
    requires LastPlayer(s.catalog.players, id).Some?
  {
    var donor := LastPlayer(s.catalog.players, id).value;
    m.(players := m.players + [donor], aliases := m.aliases + AliasesOf(s.catalog.aliases, id),
       assets := if donor.image in m.assets then m.assets else m.assets + [donor.image])
  }

  lemma DonorFits(s: Scope, m: GridManifest, id: Id)
    requires UniqueKeys(s.draft) && Grown(s.draft, m) && PlayersTaken(s, m.players) && AliasesTaken(s, m)
    requires LastPlayer(m.players, id).None? && Donated(s, id) && !PersonRefused(s, id)
    ensures ImagesThere(s, m) ==> ImagesThere(s, WithDonor(s, m, id))
    ensures Grown(s.draft, WithDonor(s, m, id)) && PlayersTaken(s, WithDonor(s, m, id).players)
    ensures AliasesTaken(s, WithDonor(s, m, id)) && HasPlayer(WithDonor(s, m, id), id)
  {
    var donor := LastPlayer(s.catalog.players, id).value;
    LastPlayerExact(m.players, id);
    LastPlayerExact(s.draft.players, id);
    LastPlayerExact(s.catalog.players, id);
    UniqueAppend(m.players, PlayerKey, donor);
    var now := WithDonor(s, m, id);
    forall k ensures LastPlayer(now.players, k) == if k == id then Some(donor) else LastPlayer(m.players, k) {
      LastPlayerAppend(m.players, donor, k);
    }
    assert donor in now.players;
    forall k ensures HasPlayer(now, k) <==> HasPlayer(m, k) || k == id {
      assert forall p | p in m.players :: p in now.players;
    }
    AliasesOfExact(s.catalog.aliases, id);
    PrefixAllIn(s.draft.players, m.players);
  }

  predicate Cited(sources: seq<Source>, evidence: seq<Id>) {
    forall e | e in evidence :: FindSource(sources, e).Some?
  }

  /** add does not throw: a membership the draft has is skipped; another's player is not refused, and if it comes in its
      sources are there. */
  ghost predicate Addable(s: Scope, m: GridManifest, member: Membership) {
    IsMember(s.draft.memberships, member.criterion, member.player)
    || (!PersonRefused(s, member.player)
        && (IsMember(m.memberships, member.criterion, member.player) || !Resolvable(s, member.player) || Cited(m.sources, member.evidence)))
  }

  lemma TiedMore(s: Scope, before: GridManifest, now: GridManifest, member: Membership, unresolved: seq<(Id, Id)>, people: set<Id>)
    requires Tied(s, before, unresolved, people) && !IsMember(s.draft.memberships, member.criterion, member.player)
    requires now.memberships == before.memberships + [member] && HasPlayer(now, member.player)
    requires before.players <= now.players
    requires forall p | p in now.players :: p in before.players || (p in s.catalog.players && p.id == member.player)
    ensures Tied(s, now, unresolved, people)
  {
    assert now.memberships[|before.memberships|] in now.memberships;
    assert IsMember(now.memberships, member.criterion, member.player);
    forall p | p in now.players && p !in s.draft.players ensures p in s.catalog.players && Gains(s, now.memberships, p.id) {
      if p in before.players {
        var c :| IsMember(before.memberships, c, p.id) && !IsMember(s.draft.memberships, c, p.id);
        MembersKept(before.memberships, now.memberships, c, p.id);
      }
    }
    PrefixAllIn(before.players, now.players);
  }

  lemma TiedUnresolved(s: Scope, m: GridManifest, unresolved: seq<(Id, Id)>, people: set<Id>, now: seq<(Id, Id)>, u: (Id, Id))
    requires Tied(s, m, unresolved, people) && (forall x | x in unresolved :: x in now) && u in now
    ensures Tied(s, m, now, people + {u.1})
  {
  }

  class Coverage {
    var candidate: GridManifest
    var unresolved: seq<(Id, Id)>
    var people: set<Id>
    const s: Scope

    constructor (scope: Scope)
      requires UniqueKeys(scope.draft)
      ensures candidate == scope.draft && s == scope && unresolved == [] && people == {}
      ensures Valid() && Tied(s, candidate, unresolved, people)
    {
      candidate, s := scope.draft, scope;
      unresolved, people := [], {};
    }

    ghost predicate Valid()
      reads this
    {
      && UniqueKeys(s.draft) && Grown(s.draft, candidate) && candidate.criteria == s.draft.criteria
      && UniqueBy(candidate.sources, SourceKey)
      && candidate == s.draft.(sources := candidate.sources, players := candidate.players, memberships := candidate.memberships,
                               aliases := candidate.aliases, assets := candidate.assets)
      && SourcesTaken(s, candidate.sources) && Copies(s, candidate.sources) && ImagesThere(s, candidate) && PlayersTaken(s, candidate.players) && AliasesTaken(s, candidate)
      && MembersTaken(s, candidate.memberships)
      && NoDup(unresolved) && (forall u | u in unresolved :: u.1 in people && !IsMember(s.draft.memberships, u.0, u.1))
      && (forall id | id in people :: !Resolvable(s, id))
    }

    /** ensurePlayer: the player is known or taken over, or noted as unresolved. */
    method EnsurePlayer(id: Id) returns (found: bool, ok: bool)
      requires Valid()
      modifies this`candidate, this`people
      ensures Valid()
      ensures ok <==> !PersonRefused(s, id)
      ensures ok ==> (found <==> Resolvable(s, id)) && (found <==> HasPlayer(candidate, id))
      ensures candidate == old(candidate)
        || (ok && found && !HasPlayer(old(candidate), id) && Donated(s, id) && candidate == WithDonor(s, old(candidate), id))
      ensures people == if ok && !found then old(people) + {id} else old(people)
    {
      var known, donor := LastPlayer(candidate.players, id), LastPlayer(s.catalog.players, id);
      LastPlayerExact(candidate.players, id);
      if known.Some? {
        ok := donor.None? || (s.naming.normalized)(donor.value.name) == (s.naming.normalized)(known.value.name);
        return true, ok;
      }
      if !Donated(s, id) {
        people := people + {id};
        return false, true;
      }
      if !(s.naming.imageFits)(s.draft.players, donor.value) {
        return false, false;
      }
      DonorFits(s, candidate, id);
      LastPlayerExact(s.draft.players, id);
      var assets := if donor.value.image in candidate.assets then candidate.assets else candidate.assets + [donor.value.image];
      candidate := candidate.(players := candidate.players + [donor.value],
                              aliases := candidate.aliases + AliasesOf(s.catalog.aliases, id), assets := assets);
      found, ok := true, true;
    }

    /** add: a membership that is new is appended, or listed as unresolved when its player is. */
    method Add(member: Membership) returns (ok: bool)
      requires Valid() && Tied(s, candidate, unresolved, people)
      modifies this
      ensures Valid()
      ensures ok <==> Addable(s, old(candidate), member)
      ensures ok ==> Tied(s, candidate, unresolved, people)
      ensures ok ==> Accounted(candidate.memberships, unresolved, member.criterion, member.player)
      ensures candidate.sources == old(candidate).sources
      ensures candidate.memberships == old(candidate).memberships
        || (candidate.memberships == old(candidate).memberships + [member]
            && !IsMember(old(candidate).memberships, member.criterion, member.player) && Cited(candidate.sources, member.evidence))
      ensures unresolved == old(unresolved) || unresolved == old(unresolved) + [(member.criterion, member.player)]
    {
      var members := CollectMembers(candidate.memberships);
      MemberSetsExact(candidate.memberships, member.criterion, member.player);
      DraftMember(s, candidate, member.criterion, member.player);
      if member.criterion in members && member.player in members[member.criterion] {
        return true;
      }
      ghost var before := candidate;
      var found;
      found, ok := EnsurePlayer(member.player);
      if !ok {
        return false;
      }
      if !found {
        if (member.criterion, member.player) !in unresolved {
          unresolved := unresolved + [(member.criterion, member.player)];
        }
        TiedUnresolved(s, candidate, old(unresolved), old(people), unresolved, (member.criterion, member.player));
        return true;
      }
      if !Cited(candidate.sources, member.evidence) {
        return false;
      }
      UniqueAppend(candidate.memberships, MembershipKey, member);
      assert member in candidate.memberships + [member];
      candidate := candidate.(memberships := candidate.memberships + [member]);
      DonorIs(s, before, candidate, member.player);
      TiedMore(s, before, candidate, member, unresolved, people);
      ok := true;
    }

    /** A catalog source the candidate lacks is taken over for review; another version of one it has is refused. */
    method TakeSource(key: Id) returns (ok: bool)
      requires Valid()
      modifies this`candidate
      ensures Valid() && candidate == old(candidate).(sources := candidate.sources)
      ensures ok <==> !SourceRefused(s, key)
      ensures ok ==> forall k :: FindSource(candidate.sources, k).Some? <==> FindSource(old(candidate).sources, k).Some? || k == key
    {
      var left, right := FindSource(candidate.sources, key), FindSource(s.catalog.sources, key);
      DraftSource(s, candidate.sources, key);
      if right.None? || (left.Some? && (left.value.dataset != right.value.dataset || left.value.provider != right.value.provider)) {
        return false;
      }
      if left.None? {
        NewSourceFits(s, candidate, key);
        candidate := candidate.(sources := candidate.sources + [right.value.(approved := false, owner := Unreviewed)]);
      }
      ok := true;
    }

    method TakeSources(keys: seq<Id>) returns (ok: bool)
      requires Valid()
      modifies this`candidate
      ensures Valid() && candidate == old(candidate).(sources := candidate.sources)
      ensures ok <==> forall e | e in keys :: !SourceRefused(s, e)
      ensures ok ==> forall k :: FindSource(candidate.sources, k).Some? <==> FindSource(old(candidate).sources, k).Some? || k in keys
    {
      for i := 0 to |keys|
        invariant Valid() && candidate == old(candidate).(sources := candidate.sources)
        invariant forall e | e in keys[..i] :: !SourceRefused(s, e)
        invariant forall k :: FindSource(candidate.sources, k).Some? <==> FindSource(old(candidate).sources, k).Some? || k in keys[..i]
      {
        assert keys[..i + 1] == keys[..i] + [keys[i]];
        ok := TakeSource(keys[i]);
        if !ok {
          return false;
        }
      }
      assert keys[..|keys|] == keys;
      ok := true;
    }

    /** One catalog membership. Only those on the candidate's own criteria matter. */
    method AddCatalogFact(member: Membership) returns (ok: bool)
      requires Valid() && Tied(s, candidate, unresolved, people)
      modifies this
      ensures Valid()
      ensures ok <==> CatalogFine(s, member)
      ensures ok ==> Tied(s, candidate, unresolved, people)
      ensures ok ==> CatalogStep(s, old(candidate), candidate, old(unresolved), unresolved, member)
    {
      var target := FindCriterion(candidate.criteria, member.criterion);
      FindCriterionExact(candidate.criteria, member.criterion);
      if target.None? {
        return true;
      }
      if !SameMeaning(s, member.criterion) {
        return false;
      }
      ok := TakeSources(member.evidence);
      if !ok {
        return false;
      }
      assert Cited(candidate.sources, member.evidence);
      ghost var before := candidate;
      ok := Add(member);
      DraftMember(s, before, member.criterion, member.player);
    }

    /** One audited fact: its criterion must be the candidate's and of a family an audit may infer. */
    method AddAuditFact(fact: SourceFact) returns (ok: bool)
      requires Valid() && Tied(s, candidate, unresolved, people)
      modifies this
      ensures Valid()
      ensures ok <==> Audited(s, fact.criterion) && Addable(s, old(candidate), AuditRow(s, fact))
      ensures ok ==> Tied(s, candidate, unresolved, people)
      ensures ok ==> Accounted(candidate.memberships, unresolved, fact.criterion, fact.player)
      ensures candidate.sources == old(candidate).sources
      ensures candidate.memberships == old(candidate).memberships
        || (candidate.memberships == old(candidate).memberships + [AuditRow(s, fact)]
            && !IsMember(old(candidate).memberships, fact.criterion, fact.player) && Cited(candidate.sources, [AUDIT_SOURCE]))
      ensures unresolved == old(unresolved) || unresolved == old(unresolved) + [(fact.criterion, fact.player)]
    {
      if !Audited(s, fact.criterion) {
        return false;
      }
      ok := Add(AuditRow(s, fact));
    }
  }

  lemma DraftMember(s: Scope, m: GridManifest, criterion: Id, player: Id)
    requires s.draft.memberships <= m.memberships && MembersTaken(s, m.memberships)
    ensures IsMember(s.draft.memberships, criterion, player) ==> IsMember(m.memberships, criterion, player)
    ensures IsMember(m.memberships, criterion, player) ==>
      IsMember(s.draft.memberships, criterion, player) || (Resolvable(s, player) && !PersonRefused(s, player))
  {
    if IsMember(s.draft.memberships, criterion, player) {
      MembersKept(s.draft.memberships, m.memberships, criterion, player);
    }
  }

  lemma DonorIs(s: Scope, before: GridManifest, now: GridManifest, id: Id)
    requires now.players == before.players || (LastPlayer(s.catalog.players, id).Some? && now.players == WithDonor(s, before, id).players)
    ensures before.players <= now.players
    ensures forall p | p in now.players :: p in before.players || (p in s.catalog.players && p.id == id)
  {
    LastPlayerExact(s.catalog.players, id);
  }

  lemma DraftSource(s: Scope, sources: seq<Source>, key: Id)
    requires SourcesTaken(s, sources) && s.draft.sources <= sources
    ensures FindSource(s.draft.sources, key).Some? ==> FindSource(sources, key) == FindSource(s.draft.sources, key)
  {
    FindSourceExact(s.draft.sources, key);
    FindSourceExact(sources, key);
    PrefixAllIn(s.draft.sources, sources);
  }

  lemma NewSourceFits(s: Scope, m: GridManifest, key: Id)
    requires UniqueKeys(s.draft) && Grown(s.draft, m) && UniqueBy(m.sources, SourceKey) && SourcesTaken(s, m.sources)
    requires FindSource(m.sources, key).None? && FindSource(s.catalog.sources, key).Some?
    ensures var row := FindSource(s.catalog.sources, key).value.(approved := false, owner := Unreviewed);
      && SourcesTaken(s, m.sources + [row]) && (Copies(s, m.sources) ==> Copies(s, m.sources + [row])) && UniqueBy(m.sources + [row], SourceKey)
      && forall k :: FindSource(m.sources + [row], k).Some? <==> FindSource(m.sources, k).Some? || k == key
  {
    var row := FindSource(s.catalog.sources, key).value.(approved := false, owner := Unreviewed);
    FindSourceExact(s.catalog.sources, key);
    FindSourceExact(m.sources, key);
    DraftSource(s, m.sources, key);
    UniqueAppend(m.sources, SourceKey, row);
    forall k ensures FindSource(m.sources + [row], k) ==
      if FindSource(m.sources, k).Some? then FindSource(m.sources, k) else if row.key == k then Some(row) else None
    {
      FindSourceAppend(m.sources, row, k);
    }
  }

  // ------------------------------------------------------------------------------------------------ the catalog pass

  /** What one catalog row changes. */
  ghost predicate CatalogStep(s: Scope, before: GridManifest, now: GridManifest, un: seq<(Id, Id)>, un': seq<(Id, Id)>, row: Membership) {
    && before.memberships <= now.memberships && un <= un'
    && (!Relevant(s.draft, row.criterion) ==> now == before && un' == un)
    && (Relevant(s.draft, row.criterion) ==>
          && Accounted(now.memberships, un', row.criterion, row.player)
          && (now.memberships == before.memberships || now.memberships == before.memberships + [row])
          && (un' == un || un' == un + [(row.criterion, row.player)])
          && forall k :: FindSource(now.sources, k).Some? <==> FindSource(before.sources, k).Some? || k in row.evidence)
  }

  ghost predicate Brought(s: Scope, rows: seq<Membership>, key: Id) {
    exists m | m in rows :: Relevant(s.draft, m.criterion) && key in m.evidence
  }

  /** Where the catalog pass stands after some rows. */
  ghost predicate CatalogDone(s: Scope, rows: seq<Membership>, m: GridManifest, unresolved: seq<(Id, Id)>) {
    && (forall r | r in rows && Relevant(s.draft, r.criterion) :: Accounted(m.memberships, unresolved, r.criterion, r.player))
    && (forall r | r in m.memberships :: r in s.draft.memberships || (r in s.catalog.memberships && Relevant(s.draft, r.criterion)))
    && (forall u | u in unresolved :: CatalogPair(s, u.0, u.1))
    && (forall k :: FindSource(m.sources, k).Some? <==> FindSource(s.draft.sources, k).Some? || Brought(s, rows, k))
  }

  lemma CatalogMore(s: Scope, rows: seq<Membership>, before: GridManifest, un: seq<(Id, Id)>, row: Membership, now: GridManifest, un': seq<(Id, Id)>)
    requires CatalogDone(s, rows, before, un) && CatalogStep(s, before, now, un, un', row) && row in s.catalog.memberships
    ensures CatalogDone(s, rows + [row], now, un')
  {
    AccountedKept(before.memberships, un, now.memberships, un');
    forall k ensures Brought(s, rows + [row], k) <==> Brought(s, rows, k) || (Relevant(s.draft, row.criterion) && k in row.evidence) {
      assert row in rows + [row];
      if Brought(s, rows, k) {
        var m :| m in rows && Relevant(s.draft, m.criterion) && k in m.evidence;
        assert m in rows + [row];
      }
    }
    if Relevant(s.draft, row.criterion) {
      assert CatalogPair(s, row.criterion, row.player);
    }
  }

  method AddCatalog(c: Coverage) returns (ok: bool)
    requires c.Valid() && c.candidate == c.s.draft && c.unresolved == [] && c.people == {}
    modifies c
    ensures c.Valid()
    ensures ok <==> forall m | m in c.s.catalog.memberships :: CatalogFine(c.s, m)
    ensures ok ==> Tied(c.s, c.candidate, c.unresolved, c.people) && CatalogDone(c.s, c.s.catalog.memberships, c.candidate, c.unresolved)
  {
    var rows := c.s.catalog.memberships;
    for i := 0 to |rows|
      invariant c.Valid() && Tied(c.s, c.candidate, c.unresolved, c.people)
      invariant CatalogDone(c.s, rows[..i], c.candidate, c.unresolved)
      invariant forall m | m in rows[..i] :: CatalogFine(c.s, m)
    {
      assert rows[..i + 1] == rows[..i] + [rows[i]];
      ghost var before, un := c.candidate, c.unresolved;
      ok := c.AddCatalogFact(rows[i]);
      if !ok {
        return false;
      }
      CatalogMore(c.s, rows[..i], before, un, rows[i], c.candidate, c.unresolved);
    }
    assert rows[..|rows|] == rows;
    ok := true;
  }

  // ------------------------------------------------------------------------------------------------ the audit pass

  /** Where the audit pass stands after some facts; `first` and `un0` are what the catalog pass left. */
  ghost predicate AuditDone(s: Scope, first: GridManifest, un0: seq<(Id, Id)>, facts: seq<SourceFact>, m: GridManifest, unresolved: seq<(Id, Id)>) {
    && first.memberships <= m.memberships && un0 <= unresolved && m.sources == first.sources
    && (forall f | f in facts :: Accounted(m.memberships, unresolved, f.criterion, f.player))
    && (forall r | r in m.memberships ::
          r in first.memberships || (!IsMember(first.memberships, r.criterion, r.player) && exists f | f in facts :: r == AuditRow(s, f)))
    && (forall u | u in unresolved :: u in un0 || AuditPair(facts, u.0, u.1))
    && (m.memberships != first.memberships ==> Cited(first.sources, [AUDIT_SOURCE]))
  }

  lemma AuditMore(s: Scope, first: GridManifest, un0: seq<(Id, Id)>, facts: seq<SourceFact>, before: GridManifest, un: seq<(Id, Id)>,
                  fact: SourceFact, now: GridManifest, un': seq<(Id, Id)>)
    requires AuditDone(s, first, un0, facts, before, un) && now.sources == before.sources
    requires Accounted(now.memberships, un', fact.criterion, fact.player)
    requires now.memberships == before.memberships
      || (now.memberships == before.memberships + [AuditRow(s, fact)]
          && !IsMember(before.memberships, fact.criterion, fact.player) && Cited(now.sources, [AUDIT_SOURCE]))
    requires un' == un || un' == un + [(fact.criterion, fact.player)]
    ensures AuditDone(s, first, un0, facts + [fact], now, un')
  {
    AccountedKept(before.memberships, un, now.memberships, un');
    var all := facts + [fact];
    assert fact in all;
    forall f | f in facts ensures f in all {
    }
    forall r | r in now.memberships && r !in first.memberships
      ensures !IsMember(first.memberships, r.criterion, r.player) && exists f | f in all :: r == AuditRow(s, f)
    {
      if r in before.memberships {
        var f :| f in facts && r == AuditRow(s, f);
        assert f in all;
      } else if IsMember(first.memberships, r.criterion, r.player) {
        MembersKept(first.memberships, before.memberships, r.criterion, r.player);
        assert false;
      }
    }
    forall u | u in un' && u !in un0 ensures AuditPair(all, u.0, u.1) {
      if u in un {
        var f :| f in facts && f.criterion == u.0 && f.player == u.1;
        assert f in all;
      }
    }
  }

  /** Whether a fact is refused does not depend on the facts before it. */
  lemma AddableStays(s: Scope, first: GridManifest, un0: seq<(Id, Id)>, facts: seq<SourceFact>, m: GridManifest, un: seq<(Id, Id)>, fact: SourceFact)
    requires AuditDone(s, first, un0, facts, m, un) && MembersTaken(s, m.memberships) && s.draft.memberships <= m.memberships
    ensures Addable(s, m, AuditRow(s, fact)) <==> Addable(s, first, AuditRow(s, fact))
  {
    DraftMember(s, m, fact.criterion, fact.player);
    if IsMember(first.memberships, fact.criterion, fact.player) {
      MembersKept(first.memberships, m.memberships, fact.criterion, fact.player);
    }
  }

  method AddAudit(c: Coverage, audit: seq<SourceFact>) returns (ok: bool)
    requires c.Valid() && Tied(c.s, c.candidate, c.unresolved, c.people)
    modifies c
    ensures c.Valid()
    ensures ok <==> forall f | f in audit :: Audited(c.s, f.criterion) && Addable(c.s, old(c.candidate), AuditRow(c.s, f))
    ensures ok ==> Tied(c.s, c.candidate, c.unresolved, c.people)
    ensures ok ==> AuditDone(c.s, old(c.candidate), old(c.unresolved), audit, c.candidate, c.unresolved)
  {
    for i := 0 to |audit|
      invariant c.Valid() && Tied(c.s, c.candidate, c.unresolved, c.people)
      invariant AuditDone(c.s, old(c.candidate), old(c.unresolved), audit[..i], c.candidate, c.unresolved)
      invariant forall f | f in audit[..i] :: Audited(c.s, f.criterion) && Addable(c.s, old(c.candidate), AuditRow(c.s, f))
    {
      assert audit[..i + 1] == audit[..i] + [audit[i]];
      ghost var before, un := c.candidate, c.unresolved;
      AddableStays(c.s, old(c.candidate), old(c.unresolved), audit[..i], before, un, audit[i]);
      ok := c.AddAuditFact(audit[i]);
      if !ok {
        return false;
      }
      AuditMore(c.s, old(c.candidate), old(c.unresolved), audit[..i], before, un, audit[i], c.candidate, c.unresolved);
    }
    assert audit[..|audit|] == audit;
    ok := true;
  }

  // ------------------------------------------------------------------------------------------------ both passes

  /** What the catalog pass leaves, said without rows in between. */
  lemma CatalogExact(s: Scope, first: GridManifest, un0: seq<(Id, Id)>, criterion: Id, player: Id)
    requires CatalogDone(s, s.catalog.memberships, first, un0)
    requires s.draft.memberships <= first.memberships && MembersTaken(s, first.memberships)
    requires forall u | u in un0 :: !Resolvable(s, u.1) && !IsMember(s.draft.memberships, u.0, u.1)
    ensures IsMember(first.memberships, criterion, player) <==>
      IsMember(s.draft.memberships, criterion, player) || (CatalogPair(s, criterion, player) && Resolvable(s, player))
    ensures (criterion, player) in un0 <==>
      CatalogPair(s, criterion, player) && !IsMember(s.draft.memberships, criterion, player) && !Resolvable(s, player)
  {
    DraftMember(s, first, criterion, player);
    if CatalogPair(s, criterion, player) {
      var r :| r in s.catalog.memberships && r.criterion == criterion && r.player == player;
      assert Accounted(first.memberships, un0, r.criterion, r.player);
    }
    if IsMember(first.memberships, criterion, player) && !IsMember(s.draft.memberships, criterion, player) {
      var r :| r in first.memberships && r.criterion == criterion && r.player == player;
      assert r !in s.draft.memberships;
      assert CatalogPair(s, criterion, player);
    }
  }

  lemma BroughtIsBrings(s: Scope, key: Id)
    ensures Brought(s, s.catalog.memberships, key) <==> BringsSource(s, key)
  {
  }

  /** After the catalog pass a fact of the audit is refused exactly when the rule says so. */
  lemma AddableIsFine(s: Scope, first: GridManifest, un0: seq<(Id, Id)>, f: SourceFact)
    requires CatalogDone(s, s.catalog.memberships, first, un0)
    requires s.draft.memberships <= first.memberships && MembersTaken(s, first.memberships)
    requires forall u | u in un0 :: !Resolvable(s, u.1) && !IsMember(s.draft.memberships, u.0, u.1)
    ensures Audited(s, f.criterion) && Addable(s, first, AuditRow(s, f)) <==> AuditFine(s, f)
  {
    CatalogExact(s, first, un0, f.criterion, f.player);
    BroughtIsBrings(s, AUDIT_SOURCE);
    assert Cited(first.sources, [AUDIT_SOURCE]) <==> FindSource(first.sources, AUDIT_SOURCE).Some? by {
      assert AUDIT_SOURCE in [AUDIT_SOURCE];
    }
  }

  lemma AuditExact(s: Scope, first: GridManifest, un0: seq<(Id, Id)>, audit: seq<SourceFact>, m: GridManifest, un: seq<(Id, Id)>, criterion: Id, player: Id)
    requires CatalogDone(s, s.catalog.memberships, first, un0) && AuditDone(s, first, un0, audit, m, un)
    requires s.draft.memberships <= first.memberships && MembersTaken(s, m.memberships)
    requires forall u | u in un :: !Resolvable(s, u.1) && !IsMember(s.draft.memberships, u.0, u.1)
    ensures IsMember(m.memberships, criterion, player) <==> CoveredMember(s, audit, criterion, player)
    ensures (criterion, player) in un <==> Unresolved(s, audit, (criterion, player))
  {
    FirstTaken(s, first.memberships, m.memberships);
    PrefixAllIn(un0, un);
    CatalogExact(s, first, un0, criterion, player);
    DraftMember(s, m, criterion, player);
    if IsMember(first.memberships, criterion, player) {
      MembersKept(first.memberships, m.memberships, criterion, player);
    }
    if AuditPair(audit, criterion, player) {
      var f :| f in audit && f.criterion == criterion && f.player == player;
      assert Accounted(m.memberships, un, f.criterion, f.player);
    }
    if IsMember(m.memberships, criterion, player) && !IsMember(first.memberships, criterion, player) {
      var r :| r in m.memberships && r.criterion == criterion && r.player == player;
      assert r !in first.memberships;
      var f :| f in audit && r == AuditRow(s, f);
      assert AuditPair(audit, criterion, player);
    }
  }

  lemma FirstTaken(s: Scope, first: seq<Membership>, now: seq<Membership>)
    requires first <= now && MembersTaken(s, now)
    ensures MembersTaken(s, first)
  {
    PrefixAllIn(first, now);
  }

  lemma RowsExact(s: Scope, first: GridManifest, un0: seq<(Id, Id)>, audit: seq<SourceFact>, m: GridManifest, un: seq<(Id, Id)>, r: Membership)
    requires CatalogDone(s, s.catalog.memberships, first, un0) && AuditDone(s, first, un0, audit, m, un)
    requires s.draft.memberships <= first.memberships && MembersTaken(s, m.memberships)
    requires forall u | u in un :: !Resolvable(s, u.1) && !IsMember(s.draft.memberships, u.0, u.1)
    requires r in m.memberships
    ensures r in s.draft.memberships || r in s.catalog.memberships
         || (!CatalogPair(s, r.criterion, r.player) && FromAudit(s, audit, r))
  {
    if r !in first.memberships && r !in s.draft.memberships {
      FirstTaken(s, first.memberships, m.memberships);
      PrefixAllIn(un0, un);
      CatalogExact(s, first, un0, r.criterion, r.player);
      assert Resolvable(s, r.player);
    }
  }

  /** Both passes together, from what each leaves. */
  lemma GatherExact(s: Scope, first: GridManifest, un0: seq<(Id, Id)>, audit: seq<SourceFact>, m: GridManifest, un: seq<(Id, Id)>, people: set<Id>)
    requires CatalogDone(s, s.catalog.memberships, first, un0) && AuditDone(s, first, un0, audit, m, un)
    requires s.draft.memberships <= first.memberships && MembersTaken(s, m.memberships) && Tied(s, m, un, people) && NoDup(un)
    requires forall u | u in un :: u.1 in people && !Resolvable(s, u.1) && !IsMember(s.draft.memberships, u.0, u.1)
    requires s.draft.players <= m.players && ImagesThere(s, m) && Copies(s, m.sources)
    ensures Gathered(s, audit, m, un, people)
  {
    PrefixAllIn(s.draft.players, m.players);
    PrefixAllIn(s.draft.memberships, first.memberships);
    PrefixAllIn(first.memberships, m.memberships);
    forall c, p ensures IsMember(m.memberships, c, p) <==> CoveredMember(s, audit, c, p) {
      AuditExact(s, first, un0, audit, m, un, c, p);
    }
    forall u: (Id, Id) ensures u in un <==> Unresolved(s, audit, u) {
      AuditExact(s, first, un0, audit, m, un, u.0, u.1);
    }
    forall r | r in m.memberships
      ensures r in s.draft.memberships || r in s.catalog.memberships
           || (!CatalogPair(s, r.criterion, r.player) && FromAudit(s, audit, r))
    {
      RowsExact(s, first, un0, audit, m, un, r);
    }
    forall key ensures FindSource(m.sources, key).Some? <==> FindSource(s.draft.sources, key).Some? || BringsSource(s, key) {
      BroughtIsBrings(s, key);
    }
  }

  method Gather(c: Coverage, audit: seq<SourceFact>) returns (ok: bool)
    requires c.Valid() && c.candidate == c.s.draft && c.unresolved == [] && c.people == {}
    modifies c
    ensures c.Valid()
    ensures ok <==> Gatherable(c.s, audit)
    ensures ok ==> Gathered(c.s, audit, c.candidate, c.unresolved, c.people)
  {
    ok := AddCatalog(c);
    if !ok {
      return;
    }
    ghost var first, un0 := c.candidate, c.unresolved;
    ok := AddAudit(c, audit);
    forall f: SourceFact ensures Audited(c.s, f.criterion) && Addable(c.s, first, AuditRow(c.s, f)) <==> AuditFine(c.s, f) {
      AddableIsFine(c.s, first, un0, f);
    }
    if ok {
      GatherExact(c.s, first, un0, audit, c.candidate, c.unresolved, c.people);
    }
  }

  // ------------------------------------------------------------------------------------------------ the transform

  /** A covered draft: the candidate, the memberships left unresolved and their players. */
  datatype CoverageDraft = CoverageDraft(candidate: GridManifest, unresolved: seq<(Id, Id)>, people: set<Id>)

  /** [...new Set(assets)] */
  function Distinct(assets: seq<Id>): seq<Id> {
    if assets == [] then []
    else
      var before := Distinct(assets[..|assets| - 1]);
      if assets[|assets| - 1] in before then before else before + [assets[|assets| - 1]]
  }

  lemma {:induction false} DistinctExact(assets: seq<Id>)
    ensures NoDup(Distinct(assets)) && forall x :: x in Distinct(assets) <==> x in assets
  {
    if assets != [] {
      var front := assets[..|assets| - 1];
      DistinctExact(front);
      assert assets == front + [assets[|assets| - 1]];
    }
  }

  lemma NamesAre(s: Scope, m: GridManifest, aliases: seq<Alias>)
    requires AliasesTaken(s, m) && m.aliases <= aliases
    requires forall p, form | p in m.players && NamedExactly(m.aliases, s.naming, p) && form in (s.naming.forms)(p, s.draft.release.approvedAt) ::
      IsSpelled(aliases, form)
    requires forall a | a in aliases :: a in m.aliases || FormOf(m.players, m.aliases, s.naming, s.draft.release.approvedAt, a)
    ensures NamesCovered(s, m.(aliases := aliases))
  {
    PrefixAllIn(m.aliases, aliases);
    forall p | p in m.players ensures NamedExactly(m.aliases, s.naming, p) <==> NameAnchored(s, p) {
      assert HasPlayer(m, p.id);
    }
  }

  /** What was gathered does not depend on counts, names, boards and the release record. */
  lemma SameGathered(s: Scope, audit: seq<SourceFact>, m: GridManifest, n: GridManifest, unresolved: seq<(Id, Id)>, people: set<Id>)
    requires Gathered(s, audit, m, unresolved, people)
    requires n.memberships == m.memberships && n.players == m.players && n.sources == m.sources && AllIn(m.assets, n.assets)
    ensures Gathered(s, audit, n, unresolved, people)
  {
    forall id ensures HasPlayer(m, id) <==> HasPlayer(n, id) {
    }
  }

  lemma SameNames(s: Scope, m: GridManifest, n: GridManifest)
    requires NamesCovered(s, m) && n.players == m.players && n.aliases == m.aliases
    ensures NamesCovered(s, n)
  {
    forall id ensures HasPlayer(m, id) <==> HasPlayer(n, id) {
    }
  }

  lemma FinishedIsAdditive(draft: GridManifest, m: GridManifest, n: GridManifest, members: Members)
    requires UniqueKeys(draft) && Grown(draft, m) && UniqueBy(m.sources, SourceKey) && m.criteria == draft.criteria
    requires m.aliases <= n.aliases && AllIn(m.assets, n.assets) && BoardsCompleted(draft.boards, n.boards, members)
    requires n.memberships == m.memberships && n.players == m.players && n.sources == m.sources
    requires n.criteria == Counted(draft.criteria, m.memberships)
    ensures Additive(draft, n)
  {
    assert CleanAll(n.criteria) == CleanAll(draft.criteria);
    var grown := n.(boards := draft.boards);
    GrownIsAdditive(draft, grown, members, n.boards);
    assert grown.(boards := n.boards) == n;
  }

  /** Proposed memberships are on the draft's criteria, so only the draft's own can be on others. */
  lemma CriteriaKnown(s: Scope, audit: seq<SourceFact>, m: GridManifest, unresolved: seq<(Id, Id)>, people: set<Id>)
    requires Gatherable(s, audit) && Gathered(s, audit, m, unresolved, people) && s.draft.memberships <= m.memberships
    ensures (forall r | r in m.memberships :: Relevant(s.draft, r.criterion)) <==> forall r | r in s.draft.memberships :: Relevant(s.draft, r.criterion)
  {
    PrefixAllIn(s.draft.memberships, m.memberships);
    if forall r | r in s.draft.memberships :: Relevant(s.draft, r.criterion) {
      forall r | r in m.memberships ensures Relevant(s.draft, r.criterion) {
        assert CoveredMember(s, audit, r.criterion, r.player) by {
          assert IsMember(m.memberships, r.criterion, r.player);
        }
        if AuditPair(audit, r.criterion, r.player) {
          var f :| f in audit && f.criterion == r.criterion && f.player == r.player;
          assert AuditFine(s, f);
          FindCriterionExact(s.draft.criteria, f.criterion);
        }
      }
    }
  }

  /** Every criterion counts its members. */
  ghost predicate AllCounted(criteria: seq<Criterion>, now: GridManifest) {
    && |now.criteria| == |criteria|
    && forall i | 0 <= i < |criteria| ::
      now.criteria[i] == criteria[i].(memberCount := Some(|set m | m in now.memberships && m.criterion == criteria[i].key :: m.player|))
  }

  lemma CountedIsRight(criteria: seq<Criterion>, now: GridManifest)
    requires now.criteria == Counted(criteria, now.memberships)
    ensures AllCounted(criteria, now)
  {
    forall i | 0 <= i < |criteria|
      ensures MembersOf(MemberSets(now.memberships), criteria[i].key) == set m | m in now.memberships && m.criterion == criteria[i].key :: m.player
    {
      MembersAre(now.memberships, criteria[i].key);
    }
  }

  lemma FinishedBoards(draft: GridManifest, n: GridManifest, members: Members)
    requires BoardsCompleted(draft.boards, n.boards, members) && members == CriterionMembers(draft.criteria, n.memberships)
    ensures Served(draft.boards, n.boards, n.memberships)
    ensures forall i | 0 <= i < |n.boards| ::
      n.boards[i].approvedBy == if n.boards[i].cells == draft.boards[i].cells then draft.boards[i].approvedBy else Unreviewed
    ensures Exposed(n.boards) == set b, cell, p | b in n.boards && cell in b.cells && p in cell.players :: p
  {
    forall k, p | k in members ensures p in members[k] <==> IsMember(n.memberships, k, p) {
      CriterionMembersExact(draft, n.memberships, k);
    }
    CompletedIsServed(draft.boards, n.boards, members, n.memberships);
    forall i | 0 <= i < |n.boards|
      ensures n.boards[i].approvedBy == if n.boards[i].cells == draft.boards[i].cells then draft.boards[i].approvedBy else Unreviewed
    {
      assert BoardCompleted(draft.boards[i], n.boards[i], members);
    }
  }

  /** What a finished coverage of the draft is. */
  ghost predicate Covered(s: Scope, audit: seq<SourceFact>, n: GridManifest, unresolved: seq<(Id, Id)>, people: set<Id>, added: nat, changed: nat) {
    && Additive(s.draft, n) && Gathered(s, audit, n, unresolved, people) && NamesCovered(s, n)
    && Served(s.draft.boards, n.boards, n.memberships) && BoardTally(s.draft.boards, n.boards, added, changed)
    && (forall i | 0 <= i < |n.boards| ::
          n.boards[i].approvedBy == if n.boards[i].cells == s.draft.boards[i].cells then s.draft.boards[i].approvedBy else Unreviewed)
    && AllCounted(s.draft.criteria, n) && NoDup(n.assets)
    && n.release == s.draft.release.(transform := 3, exposed := |set b, cell, p | b in n.boards && cell in b.cells && p in cell.players :: p|)
    && (n.version, n.aliasVersion, n.resolverVersion) == (s.draft.version, s.draft.aliasVersion, s.draft.resolverVersion)
  }

  /** The last part: names, counts, cells, assets and the release record. */
  method Finish(s: Scope, audit: seq<SourceFact>, m: GridManifest, ghost unresolved: seq<(Id, Id)>, ghost people: set<Id>)
    returns (r: Result<GridManifest>, added: nat, changed: nat)
    requires UniqueKeys(s.draft) && Grown(s.draft, m) && UniqueBy(m.sources, SourceKey) && AliasesTaken(s, m)
    requires m == s.draft.(sources := m.sources, players := m.players, memberships := m.memberships, aliases := m.aliases, assets := m.assets)
    requires Gathered(s, audit, m, unresolved, people)
    ensures r.Ok? <==> AnswersCovered(s, audit)
    ensures r.Ok? ==> Covered(s, audit, r.value, unresolved, people, added, changed)
  {
    var aliases, more := AddFamilyAliases(m.players, m.aliases, s.naming, s.draft.release.approvedAt);
    NamesAre(s, m, aliases);
    var members := CriterionMembers(s.draft.criteria, m.memberships);
    var boards;
    boards, added, changed := CompleteBoards(s.draft.boards, members);
    SupportedIsCovered(s, audit, m.memberships);
    if boards.Err? {
      return Err(boards.error), 0, 0;
    }
    DistinctExact(m.assets);
    var now := m.(aliases := aliases, criteria := Counted(s.draft.criteria, m.memberships), assets := Distinct(m.assets),
                  boards := boards.value, release := CoverageRelease(m.release, boards.value));
    FinishedIsAdditive(s.draft, m, now, members);
    FinishedBoards(s.draft, now, members);
    CountedIsRight(s.draft.criteria, now);
    SameGathered(s, audit, m, now, unresolved, people);
    SameNames(s, m.(aliases := aliases), now);
    r := Ok(now);
  }

  /**
   * prepareCatalogCoverage on a draft. It goes through exactly when draft, catalog and report fit, no row is refused and
   * every stored answer will have both its memberships. Then exactly the proposed memberships of resolvable players have
   * come in, every cell is exactly the intersection of its two criteria, and the result is above the draft in the
   * additive relation.
   */
  method PrepareCatalogCoverage(draft: CorrectionDraft, catalog: GridManifest, report: Report, naming: Naming)
    returns (r: Result<CoverageDraft>, added: nat, changed: nat)
    requires UniqueKeys(draft.candidate)
    ensures r.Ok? <==> Coverable(draft, catalog, report, naming)
    ensures r.Ok? ==>
      var audit := AuditOf(report.releases, draft.sourceVersion).value.facts;
      Covered(Scope(draft.candidate, catalog, naming), audit, r.value.candidate, r.value.unresolved, r.value.people, added, changed)
    ensures r.Ok? ==> forall rules, reviewer, at :: !Approvable(rules, CorrectionDraft(true, draft.sourceVersion, r.value.candidate), reviewer, at)
  {
    added, changed := 0, 0;
    if !ReportFits(draft, catalog, report) {
      return Err("unapproved draft, its catalog and a report about it expected"), 0, 0;
    }
    var s := Scope(draft.candidate, catalog, naming);
    var audit := AuditOf(report.releases, draft.sourceVersion).value.facts;
    var c := new Coverage(s);
    var ok := Gather(c, audit);
    if !ok {
      return Err("catalog or audit refused"), 0, 0;
    }
    CriteriaKnown(s, audit, c.candidate, c.unresolved, c.people);
    if exists m | m in c.candidate.memberships :: !Relevant(draft.candidate, m.criterion) {
      return Err("membership without a criterion"), 0, 0;
    }
    var candidate;
    candidate, added, changed := Finish(s, audit, c.candidate, c.unresolved, c.people);
    if candidate.Err? {
      return Err(candidate.error), 0, 0;
    }
    r := Ok(CoverageDraft(candidate.value, c.unresolved, c.people));
  }
}
