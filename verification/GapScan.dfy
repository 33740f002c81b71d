/** The one-pass check of a schedule: a key comes back only after its gap. */
module GapScan {

  /** One appearance of a key on a day. */
  datatype Occurrence<K> = Occurrence(day: int, key: K)

  ghost predicate InOrder<K>(all: seq<Occurrence<K>>) {
    forall i, j | 0 <= i < j < |all| :: all[i].day <= all[j].day
  }

  /** The i-th and j-th occurrence: different keys, or far enough apart. */
  ghost predicate FarApart<K>(all: seq<Occurrence<K>>, i: nat, j: nat, gap: K -> int)
    requires i < |all| && j < |all|
  {
    all[i].key == all[j].key ==> all[j].day - all[i].day >= gap(all[j].key)
  }

  /** The rule itself, on all pairs among the first n. */
  ghost predicate ApartUpTo<K>(all: seq<Occurrence<K>>, n: nat, gap: K -> int)
    requires n <= |all|
  {
    forall i, j | 0 <= i < j < n :: FarApart(all, i, j, gap)
  }

  ghost predicate Apart<K>(all: seq<Occurrence<K>>, gap: K -> int) {
    ApartUpTo(all, |all|, gap)
  }

  /** `last` holds the latest day of every key among the first i. */
  ghost predicate LastDays<K>(all: seq<Occurrence<K>>, i: nat, last: map<K, int>)
    requires i <= |all|
  {
    && (forall k | 0 <= k < i :: all[k].key in last && all[k].day <= last[all[k].key])
    && (forall key | key in last :: Occurrence(last[key], key) in all[..i])
  }

  lemma LastDaysStep<K>(all: seq<Occurrence<K>>, i: nat, last: map<K, int>)
    requires i < |all| && InOrder(all) && LastDays(all, i, last)
    ensures LastDays(all, i + 1, last[all[i].key := all[i].day])
  {
    assert all[..i + 1] == all[..i] + [all[i]];
    var next := last[all[i].key := all[i].day];
    forall k | 0 <= k < i ensures all[k].day <= next[all[k].key] {
      assert all[k].day <= all[i].day;
    }
  }

  /** Looking at the latest day only is enough. */
  lemma LatestDecides<K>(all: seq<Occurrence<K>>, i: nat, last: map<K, int>, gap: K -> int)
    requires i < |all| && ApartUpTo(all, i, gap) && LastDays(all, i, last)
    ensures ApartUpTo(all, i + 1, gap) <==> (all[i].key in last ==> all[i].day - last[all[i].key] >= gap(all[i].key))
  {
    var key := all[i].key;
    if key in last {
      var k :| 0 <= k < |all[..i]| && all[..i][k] == Occurrence(last[key], key);
      assert all[k].key == all[i].key && all[k].day == last[key];
      assert ApartUpTo(all, i + 1, gap) ==> FarApart(all, k, i, gap);
    }
  }

  /** The scan with `lastDay`: it accepts exactly the schedules in which all pairs are far enough apart. */
  method Scan<K(==)>(all: seq<Occurrence<K>>, gap: K -> int) returns (ok: bool)
    requires InOrder(all)
    ensures ok <==> Apart(all, gap)
  {
    var last: map<K, int> := map[];
    for i := 0 to |all|
      invariant ApartUpTo(all, i, gap) && LastDays(all, i, last)
    {
      LatestDecides(all, i, last, gap);
      LastDaysStep(all, i, last);
      var key := all[i].key;
      if key in last && all[i].day - last[key] < gap(key) {
        return false;
      }
      last := last[key := all[i].day];
    }
    ok := true;
  }
}
