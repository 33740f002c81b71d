/** The room pool of one release game: a seed switches the whole pool to its release. */
module RoomPool {
  import opened Wrappers

  type ItemId = nat
  type ReleaseId = nat
  type Tag = nat
  type Difficulty = nat

  datatype Item = Item(id: ItemId, difficulty: Difficulty, tags: set<Tag>)

  datatype Row = Row(release: ReleaseId, difficulty: Difficulty, tags: set<Tag>, enabled: bool)

  /** At least `n` items of a difficulty; `tag` restricts them further. */
  datatype Need = Need(difficulty: Difficulty, tag: Option<Tag>, n: nat)

  type Pool = map<ItemId, Row>

  const SEED_BATCH := 300

  function OfRelease(pool: Pool, release: ReleaseId): set<ItemId> {
    set id | id in pool && pool[id].release == release
  }

  function Enabled(pool: Pool): set<ItemId> {
    set id | id in pool && pool[id].enabled
  }

  predicate Serves(row: Row, need: Need) {
    row.enabled && row.difficulty == need.difficulty && (need.tag.Some? ==> need.tag.value in row.tags)
  }

  function Serving(pool: Pool, need: Need): set<ItemId> {
    set id | id in pool && Serves(pool[id], need)
  }

  /** A release that has rows, none of them enabled. */
  predicate Retired(pool: Pool, release: ReleaseId) {
    OfRelease(pool, release) != {} && OfRelease(pool, release) * Enabled(pool) == {}
  }

  /** The upsert of one item. */
  function Upsert(pool: Pool, release: ReleaseId, item: Item): Pool {
    var enabled := if item.id in pool && pool[item.id].release == release then pool[item.id].enabled else true;
    pool[item.id := Row(release, item.difficulty, item.tags, enabled)]
  }

  function UpsertAll(pool: Pool, release: ReleaseId, items: seq<Item>): Pool {
    if items == [] then pool else Upsert(UpsertAll(pool, release, items[..|items| - 1]), release, items[|items| - 1])
  }

  /** UPDATE ... SET enabled = true / false by release. */
  function EnableRelease(pool: Pool, release: ReleaseId): Pool {
    map id | id in pool :: if pool[id].release == release then pool[id].(enabled := true) else pool[id]
  }

  function DisableOthers(pool: Pool, release: ReleaseId): Pool {
    map id | id in pool :: if pool[id].release == release then pool[id] else pool[id].(enabled := false)
  }

  /** The pool a seed leaves when its needs are met. */
  function Seeded(pool: Pool, release: ReleaseId, items: seq<Item>): Pool {
    var written := UpsertAll(pool, release, items);
    DisableOthers(if Retired(pool, release) then EnableRelease(written, release) else written, release)
  }

  predicate NeedsMet(pool: Pool, needs: seq<Need>) {
    forall k | 0 <= k < |needs| :: |Serving(pool, needs[k])| >= needs[k].n
  }

  /** For every need there are enough enabled items of its difficulty, with its tag if it names one. */
  ghost predicate Enough(pool: Pool, needs: seq<Need>) {
    forall k | 0 <= k < |needs| ::
      |set id | id in pool && pool[id].enabled && pool[id].difficulty == needs[k].difficulty
                && (needs[k].tag.Some? ==> needs[k].tag.value in pool[id].tags)| >= needs[k].n
  }

  lemma NeedsExact(pool: Pool, needs: seq<Need>)
    ensures NeedsMet(pool, needs) <==> Enough(pool, needs)
  {
    forall k | 0 <= k < |needs|
      ensures Serving(pool, needs[k]) ==
        set id | id in pool && pool[id].enabled && pool[id].difficulty == needs[k].difficulty
                 && (needs[k].tag.Some? ==> needs[k].tag.value in pool[id].tags)
    {
    }
  }

  ghost predicate DistinctItems(items: seq<Item>) {
    forall i, j | 0 <= i < j < |items| :: items[i].id != items[j].id
  }

  /** All enabled rows are of one release. */
  ghost predicate LiveRelease(pool: Pool, release: ReleaseId) {
    forall id | id in pool && pool[id].enabled :: pool[id].release == release
  }

  class GamePool {
    var pool: Pool
    ghost var live: Option<ReleaseId>
    const needs: seq<Need>

    constructor (needs: seq<Need>)
      ensures this.needs == needs && pool == map[] && live == None && Valid()
    {
      this.needs := needs;
      pool, live := map[], None;
    }

    /** Enabled rows belong to the release last seeded. */
    ghost predicate Valid()
      reads this
    {
      match live
      case None => Enabled(pool) == {}
      case Some(release) => LiveRelease(pool, release)
    }

    /** One committed or rolled-back seed of a release's items. */
    method Seed(release: ReleaseId, items: seq<Item>) returns (ok: bool)
      requires Valid()
      modifies this
      ensures Valid()
      ensures ok <==> Enough(Seeded(old(pool), release, items), needs)
      ensures ok ==> pool == Seeded(old(pool), release, items) && live == Some(release)
      ensures !ok ==> pool == old(pool) && live == old(live)
    {
      var before := pool;
      var retired := Retired(pool, release);
      WriteBatches(release, items);
      if retired {
        pool := EnableRelease(pool, release);
      }
      pool := DisableOthers(pool, release);
      NeedsExact(pool, needs);
      if !NeedsMet(pool, needs) {
        pool := before;
        return false;
      }
      live := Some(release);
      ok := true;
    }

    /** The upserts, a few hundred rows per statement. */
    method WriteBatches(release: ReleaseId, items: seq<Item>)
      modifies this`pool
      ensures pool == UpsertAll(old(pool), release, items)
    {
      var i := 0;
      while i < |items|
        invariant 0 <= i <= |items|
        invariant pool == UpsertAll(old(pool), release, items[..i])
      {
        var end := if i + SEED_BATCH < |items| then i + SEED_BATCH else |items|;
        while i < end
          invariant 0 <= i <= end <= |items|
          invariant pool == UpsertAll(old(pool), release, items[..i])
        {
          assert items[..i + 1][..i] == items[..i];
          pool := Upsert(pool, release, items[i]);
          i := i + 1;
        }
      }
      assert items[..|items|] == items;
    }

    /** Someone switches a single item off. */
    method DisableByHand(id: ItemId)
      requires Valid()
      modifies this`pool
      ensures Valid()
      ensures pool == if id in old(pool) then old(pool)[id := old(pool)[id].(enabled := false)] else old(pool)
    {
      if id in pool {
        pool := pool[id := pool[id].(enabled := false)];
      }
    }
  }

  // ------------------------------------------------------------------------------------------------ what a seed does

  lemma {:induction false} UpsertAllExact(pool: Pool, release: ReleaseId, items: seq<Item>, id: ItemId)
    requires DistinctItems(items)
    ensures (exists i | 0 <= i < |items| :: items[i].id == id) ==>
      && id in UpsertAll(pool, release, items)
      && UpsertAll(pool, release, items)[id].release == release
      && UpsertAll(pool, release, items)[id].enabled == (!(id in pool && pool[id].release == release) || pool[id].enabled)
      && exists i | 0 <= i < |items| :: items[i].id == id && UpsertAll(pool, release, items)[id].difficulty == items[i].difficulty
                                        && UpsertAll(pool, release, items)[id].tags == items[i].tags
    ensures (forall i | 0 <= i < |items| :: items[i].id != id) ==>
      && (id in UpsertAll(pool, release, items) <==> id in pool)
      && (id in pool ==> UpsertAll(pool, release, items)[id] == pool[id])
  {
    if items != [] {
      var n := |items| - 1;
      UpsertAllExact(pool, release, items[..n], id);
      assert forall i | 0 <= i < n :: items[..n][i] == items[i];
      if items[n].id == id {
        assert forall i | 0 <= i < n :: items[..n][i].id != id;
      } else if exists i | 0 <= i < |items| :: items[i].id == id {
        var i :| 0 <= i < |items| && items[i].id == id;
        assert items[..n][i].id == id;
        var k :| 0 <= k < n && items[..n][k].id == id && UpsertAll(pool, release, items[..n])[id].difficulty == items[..n][k].difficulty
                 && UpsertAll(pool, release, items[..n])[id].tags == items[..n][k].tags;
        assert items[k].id == id;
      }
    }
  }

  lemma RetiredExact(pool: Pool, release: ReleaseId)
    ensures Retired(pool, release) <==>
      && (exists id | id in pool :: pool[id].release == release)
      && forall id | id in pool && pool[id].release == release :: !pool[id].enabled
  {
    forall id ensures id in OfRelease(pool, release) * Enabled(pool) <==> id in pool && pool[id].release == release && pool[id].enabled {
    }
    if id :| id in pool && pool[id].release == release {
      assert id in OfRelease(pool, release);
    }
  }

  /** The item is in the file. */
  predicate Listed(items: seq<Item>, id: ItemId) {
    exists i | 0 <= i < |items| :: items[i].id == id
  }

  /**
   * A row of the seeded release is enabled afterwards exactly when it was enabled before, is new to the release, or the
   * release had been switched off as a whole; rows of other releases are never enabled. Listed rows have the content of
   * the file, all others keep theirs.
   */
  lemma SeedExact(pool: Pool, release: ReleaseId, items: seq<Item>, id: ItemId)
    requires DistinctItems(items)
    ensures var after := Seeded(pool, release, items);
      && (id in after <==> id in pool || Listed(items, id))
      && (id in after && after[id].enabled ==> after[id].release == release)
      && (id in after ==> (after[id].release == release <==> Listed(items, id) || (id in pool && pool[id].release == release)))
      && (id in after && after[id].release == release ==>
            (after[id].enabled <==>
              || (forall other | other in pool && pool[other].release == release :: !pool[other].enabled)
              || !(id in pool && pool[id].release == release) || pool[id].enabled))
      && (Listed(items, id) ==>
            exists i | 0 <= i < |items| :: items[i].id == id && after[id].difficulty == items[i].difficulty
                                           && after[id].tags == items[i].tags)
      && (id in pool && !Listed(items, id) ==>
            && after[id].release == pool[id].release && after[id].difficulty == pool[id].difficulty && after[id].tags == pool[id].tags)
  {
    RetiredExact(pool, release);
    UpsertAllExact(pool, release, items, id);
  }

  /** A row switched off by hand stays off through seeds of its live release exactly when the release has another
      row switched on. */
  lemma HandDisabledStays(pool: Pool, release: ReleaseId, items: seq<Item>, id: ItemId)
    requires DistinctItems(items) && id in pool && pool[id].release == release && !pool[id].enabled
    ensures id in Seeded(pool, release, items)
    ensures !Seeded(pool, release, items)[id].enabled <==>
      exists other | other in pool :: pool[other].release == release && pool[other].enabled
  {
    SeedExact(pool, release, items, id);
  }

  /** A release that was replaced comes back whole: all its rows, listed or not, are enabled. */
  lemma RetiredComesBack(pool: Pool, release: ReleaseId, items: seq<Item>)
    requires DistinctItems(items) && Retired(pool, release)
    ensures var after := Seeded(pool, release, items);
      && OfRelease(pool, release) <= OfRelease(after, release)
      && Enabled(after) == OfRelease(after, release)
  {
    var after := Seeded(pool, release, items);
    forall id ensures (id in OfRelease(pool, release) ==> id in OfRelease(after, release))
                   && (id in Enabled(after) <==> id in OfRelease(after, release)) {
      SeedExact(pool, release, items, id);
    }
  }

  /** Seeding another release switches the old one off as a whole, so seeding it again brings it back as it was listed. */
  lemma SwitchAndBack(pool: Pool, older: ReleaseId, next: ReleaseId, items: seq<Item>, again: seq<Item>)
    requires older != next && DistinctItems(items) && DistinctItems(again)
    requires OfRelease(Seeded(pool, next, items), older) != {}
    ensures Retired(Seeded(pool, next, items), older)
    ensures var back := Seeded(Seeded(pool, next, items), older, again);
      Enabled(back) == OfRelease(back, older) && OfRelease(Seeded(pool, next, items), older) <= Enabled(back)
  {
    var mid := Seeded(pool, next, items);
    forall id | id in OfRelease(mid, older) ensures id !in Enabled(mid) {
      SeedExact(pool, next, items, id);
    }
    assert OfRelease(mid, older) * Enabled(mid) == {};
    RetiredComesBack(mid, older, again);
  }
}
