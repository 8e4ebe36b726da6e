/** The grace map for fresh uploads. The source declares it twice, once in each function, so there are two maps. */
module RecentStores {
  import opened FiniteSets

  type Key = (string, string)

  predicate WithinGrace(m: map<Key, real>, key: Key, now: real) {
    key in m && now - m[key] < 900.0
  }

  /** The entries that are still within the grace period. */
  function Fresh(m: map<Key, real>, now: real): (kept: map<Key, real>)
    ensures forall k :: k in kept <==> k in m && now - m[k] < 900.0
    ensures forall k :: k in kept ==> k in m && kept[k] == m[k]
  {
    map k | k in m && WithinGrace(m, k, now) :: m[k]
  }

  class RecentStores {
    var noted: map<Key, real>     // the map of `note_recent_store`
    var asked: map<Key, real>     // the map of `is_recently_stored`

    ghost predicate Valid()
      reads this
    {
      asked == map[] && |noted| <= 50_001
    }

    constructor ()
      ensures Valid() && noted == map[]
    {
      noted, asked := map[], map[];
    }

    /** `note_recent_store`: the entry is remembered, but not where the other function looks. Entries within the grace
        period stay as they are; the new one is left out only when more than 50000 of them do. */
    method NoteRecentStore(node: string, hash: string, now: real)
      requires Valid()
      modifies this`noted
      ensures Valid()
      ensures var kept := Fresh(old(noted), now);
              noted == if |kept| > 50_000 then kept else kept[(node, hash) := now]
    {
      noted := Fresh(noted, now);
      KeptFewer(old(noted), noted);
      if |noted| > 50_000 {
        return;
      }
      ghost var kept := noted;
      noted := noted[(node, hash) := now];
      assert noted.Keys == kept.Keys + {(node, hash)};
    }

    /** `is_recently_stored`: whatever was noted before, the answer is no. */
    method IsRecentlyStored(node: string, hash: string, now: real) returns (recent: bool)
      requires Valid()
      ensures !recent
    {
      recent := WithinGrace(asked, (node, hash), now);
    }
  }

  lemma KeptFewer(all: map<Key, real>, kept: map<Key, real>)
    requires kept.Keys <= all.Keys
    ensures |kept| <= |all|
  {
    SubsetSize(kept.Keys, all.Keys);
  }
}
