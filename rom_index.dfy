/**
 * The priority index built at the start of `filter_roms`: the global table
 * of supported digests (digest -> record name) and, per game, the one
 * preferred digest chosen by region (France > Europe > USA > others).
 */
module RomIndex {
  import opened Common
  import opened Text
  import opened Catalog

  /** The name carries a French tag: "(France)", ",Fr", "(Fr)" or "(Fr,". */
  predicate FrenchTag(name: string) {
    Contains(name, "(France)") || Contains(name, ",Fr") || Contains(name, "(Fr)") || Contains(name, "(Fr,")
  }

  /** Region priority of a record's display name. */
  function Priority(name: string): (p: int)
    ensures 0 <= p <= 3
    ensures p == 3 <==> FrenchTag(name)
    ensures p == 2 <==> !FrenchTag(name) && Contains(name, "(Europe)")
    ensures p == 1 <==> !FrenchTag(name) && !Contains(name, "(Europe)") && Contains(name, "(USA)")
  {
    if FrenchTag(name) then 3
    else if Contains(name, "(Europe)") then 2
    else if Contains(name, "(USA)") then 1
    else 0
  }

  /**
   * A tag, once present, stays present when the name grows, so extending a
   * display name on either side never lowers its priority.
   */
  lemma PriorityGrowsWithName(a: string, b: string)
    ensures Priority(a) <= Priority(a + b)
    ensures Priority(a) <= Priority(b + a)
  {
    var tags := ["(France)", ",Fr", "(Fr)", "(Fr,", "(Europe)", "(USA)"];
    forall t | t in tags && Contains(a, t) ensures Contains(a + b, t) && Contains(b + a, t) {
      ContainsAppend(a, b, t);
      ContainsPrepend(b, a, t);
    }
  }

  /** The digest a catalog record contributes: its MD5 upper-cased. */
  function Digest(h: HashInfo): string {
    Upper(h.md5)
  }

  /** Some record of `hs` carries digest `d`. */
  predicate Lists(hs: seq<HashInfo>, d: string) {
    exists j | 0 <= j < |hs| :: Digest(hs[j]) == d
  }

  /** Some record of `hs` carries a non-empty MD5. */
  predicate HasDigest(hs: seq<HashInfo>) {
    exists j | 0 <= j < |hs| :: Digest(hs[j]) != ""
  }

  /** Every record of the catalog, game after game. */
  function Records(games: seq<LightGame>): seq<HashInfo> {
    if games == [] then []
    else Records(games[..|games| - 1]) + games[|games| - 1].hashes
  }

  /** The digest -> name table after recording `rs` in order. */
  function SupportedOf(rs: seq<HashInfo>): map<string, string> {
    if rs == [] then map[]
    else
      var m := SupportedOf(rs[..|rs| - 1]);
      var h := rs[|rs| - 1];
      if Digest(h) == "" then m else m[Digest(h) := h.name]
  }

  /** Record `i` is the last one of `rs` with digest `k`. */
  predicate LastWith(rs: seq<HashInfo>, k: string, i: int) {
    0 <= i < |rs| && Digest(rs[i]) == k && forall j :: i < j < |rs| ==> Digest(rs[j]) != k
  }

  /**
   * The supported digests are exactly the non-empty digests of the records,
   * and each maps to the name of the LAST record carrying it.
   */
  lemma {:induction false} SupportedOfSpec(rs: seq<HashInfo>)
    ensures forall k :: k in SupportedOf(rs) <==> k != "" && exists i :: 0 <= i < |rs| && Digest(rs[i]) == k
    ensures forall k :: k in SupportedOf(rs) ==> exists i :: LastWith(rs, k, i) && SupportedOf(rs)[k] == rs[i].name
  {
    if rs != [] {
      var init, h := rs[..|rs| - 1], rs[|rs| - 1];
      assert rs == init + [h];
      SupportedOfSpec(init);
      assert SupportedOf(rs) == if Digest(h) == "" then SupportedOf(init) else SupportedOf(init)[Digest(h) := h.name];
      forall k | k in SupportedOf(rs)
        ensures exists i :: LastWith(rs, k, i) && SupportedOf(rs)[k] == rs[i].name
      {
        if Digest(h) != "" && Digest(h) == k {
          assert LastWith(rs, k, |rs| - 1);
        } else {
          var i :| LastWith(init, k, i) && SupportedOf(init)[k] == init[i].name;
          assert LastWith(rs, k, i);
        }
      }
      forall k | k != "" && (exists i :: 0 <= i < |rs| && Digest(rs[i]) == k)
        ensures k in SupportedOf(rs)
      {
        var i :| 0 <= i < |rs| && Digest(rs[i]) == k;
        if i < |init| {
          assert Digest(init[i]) == k;
        }
      }
    }
  }

  /** The running `best_priority`, `best_hash` pair. */
  datatype Best = Best(priority: int, digest: Option<string>)

  /** The best pair after scanning `hs`, starting from priority -1. */
  function BestOf(hs: seq<HashInfo>): Best {
    if hs == [] then Best(-1, None)
    else
      var b := BestOf(hs[..|hs| - 1]);
      var h := hs[|hs| - 1];
      if Digest(h) == "" then b
      else if Priority(h.name) > b.priority then Best(Priority(h.name), Some(Digest(h)))
      else b
  }

  /**
   * Record `i` has a non-empty MD5, no such record has a higher priority,
   * and every such record before it has a strictly lower one.
   */
  predicate IsFirstBest(hs: seq<HashInfo>, i: int) {
    && 0 <= i < |hs|
    && Digest(hs[i]) != ""
    && (forall j :: 0 <= j < |hs| && Digest(hs[j]) != "" ==> Priority(hs[j].name) <= Priority(hs[i].name))
    && (forall j :: 0 <= j < i && Digest(hs[j]) != "" ==> Priority(hs[j].name) < Priority(hs[i].name))
  }

  /**
   * A game gets a best digest exactly when one of its records has a
   * non-empty MD5 (region tag or not, as the start value is -1), and that
   * digest is the one of the first record of maximal priority.
   */
  lemma {:induction false} BestOfSpec(hs: seq<HashInfo>)
    ensures BestOf(hs).digest.Some? <==> HasDigest(hs)
    ensures BestOf(hs).digest.None? ==> BestOf(hs).priority == -1
    ensures BestOf(hs).digest.Some? ==>
      exists i :: IsFirstBest(hs, i) && BestOf(hs).digest.value == Digest(hs[i]) && BestOf(hs).priority == Priority(hs[i].name)
  {
    if hs != [] {
      var init, h := hs[..|hs| - 1], hs[|hs| - 1];
      var n := |init|;
      assert hs == init + [h];
      BestOfSpec(init);
      var b := BestOf(init);
      if Digest(h) == "" {
        if b.digest.Some? {
          var i :| IsFirstBest(init, i) && b.digest.value == Digest(init[i]) && b.priority == Priority(init[i].name);
          assert IsFirstBest(hs, i);
        } else {
          assert !HasDigest(init);
          assert !HasDigest(hs) by {
            forall j | 0 <= j < |hs| ensures Digest(hs[j]) == "" {
              if j < n { assert hs[j] == init[j]; }
            }
          }
        }
      } else if Priority(h.name) > b.priority {
        assert HasDigest(hs) by { assert Digest(hs[n]) != ""; }
        if b.digest.Some? {
          var i :| IsFirstBest(init, i) && b.digest.value == Digest(init[i]) && b.priority == Priority(init[i].name);
          assert IsFirstBest(hs, n);
        } else {
          assert !HasDigest(init);
          assert IsFirstBest(hs, n);
        }
      } else {
        assert b.digest.Some?;
        var i :| IsFirstBest(init, i) && b.digest.value == Digest(init[i]) && b.priority == Priority(init[i].name);
        assert IsFirstBest(hs, i);
        assert HasDigest(hs) by { assert Digest(hs[i]) != ""; }
      }
    }
  }

  /** The preferred digest of a record list, when it has one. */
  function PreferredOf(hs: seq<HashInfo>): Option<string> {
    var b := BestOf(hs);
    if b.digest.Some? && b.digest.value != "" then b.digest else None
  }

  /** The game_id -> preferred digest table after processing `games` in order. */
  function PreferredMap(games: seq<LightGame>): map<int, string> {
    if games == [] then map[]
    else
      var m := PreferredMap(games[..|games| - 1]);
      var g := games[|games| - 1];
      match PreferredOf(g.hashes)
      case Some(d) => m[g.gameId := d]
      case None => m
  }

  /** Game `k` is the last game with id `gid` that has a non-empty MD5. */
  predicate LastDigestGame(games: seq<LightGame>, gid: int, k: int) {
    && 0 <= k < |games|
    && games[k].gameId == gid
    && HasDigest(games[k].hashes)
    && forall j :: k < j < |games| && games[j].gameId == gid ==> !HasDigest(games[j].hashes)
  }

  /** A game id has a preferred digest exactly when one of its games has a non-empty MD5. */
  lemma {:induction false} PreferredMapKeys(games: seq<LightGame>)
    ensures forall gid :: gid in PreferredMap(games) <==>
      exists k :: 0 <= k < |games| && games[k].gameId == gid && HasDigest(games[k].hashes)
  {
    if games != [] {
      var init, g := games[..|games| - 1], games[|games| - 1];
      var n := |init|;
      assert games == init + [g];
      PreferredMapKeys(init);
      BestOfSpec(g.hashes);
      var m := PreferredMap(games);
      assert m == if PreferredOf(g.hashes).Some? then PreferredMap(init)[g.gameId := PreferredOf(g.hashes).value]
                  else PreferredMap(init);
      forall gid | exists k :: 0 <= k < |games| && games[k].gameId == gid && HasDigest(games[k].hashes)
        ensures gid in m
      {
        var k :| 0 <= k < |games| && games[k].gameId == gid && HasDigest(games[k].hashes);
        if k < n {
          assert init[k] == games[k];
        }
      }
    }
  }

  /**
   * The preferred digest of a game id is the first-best digest of the last
   * game with that id that has a non-empty MD5, so it is always one of that
   * game's own digests.
   */
  lemma {:induction false} PreferredMapValues(games: seq<LightGame>)
    ensures forall gid :: gid in PreferredMap(games) ==>
      exists k, i :: LastDigestGame(games, gid, k) && IsFirstBest(games[k].hashes, i)
                  && PreferredMap(games)[gid] == Digest(games[k].hashes[i]) != ""
  {
    if games != [] {
      var init, g := games[..|games| - 1], games[|games| - 1];
      var n := |init|;
      assert games == init + [g];
      PreferredMapValues(init);
      BestOfSpec(g.hashes);
      var m := PreferredMap(games);
      assert m == if PreferredOf(g.hashes).Some? then PreferredMap(init)[g.gameId := PreferredOf(g.hashes).value]
                  else PreferredMap(init);
      forall gid | gid in m
        ensures exists k, i :: LastDigestGame(games, gid, k) && IsFirstBest(games[k].hashes, i)
                  && m[gid] == Digest(games[k].hashes[i]) != ""
      {
        if gid == g.gameId && PreferredOf(g.hashes).Some? {
          var i :| IsFirstBest(g.hashes, i) && BestOf(g.hashes).digest.value == Digest(g.hashes[i]);
          assert LastDigestGame(games, gid, n);
        } else {
          var k, i :| LastDigestGame(init, gid, k) && IsFirstBest(init[k].hashes, i)
                  && PreferredMap(init)[gid] == Digest(init[k].hashes[i]) != "";
          assert LastDigestGame(games, gid, k);
        }
      }
    }
  }

  /** The preferred digest of a game id is listed by a game with that id. */
  lemma PreferredIsListed(games: seq<LightGame>, gid: int)
    requires gid in PreferredMap(games)
    ensures PreferredMap(games)[gid] != ""
    ensures exists k :: 0 <= k < |games| && games[k].gameId == gid && Lists(games[k].hashes, PreferredMap(games)[gid])
  {
    PreferredMapValues(games);
    var k, i :| LastDigestGame(games, gid, k) && IsFirstBest(games[k].hashes, i)
             && PreferredMap(games)[gid] == Digest(games[k].hashes[i]) != "";
    assert Lists(games[k].hashes, PreferredMap(games)[gid]);
  }

  /**
   * The inner loop of the index pass over one game's records: records each
   * non-empty digest with its name and keeps `best_priority`, `best_hash`.
   */
  method IndexRecords(hashes: seq<HashInfo>, supported0: map<string, string>, ghost before: seq<HashInfo>)
    returns (supported: map<string, string>, best: Best)
    requires supported0 == SupportedOf(before)
    ensures supported == SupportedOf(before + hashes)
    ensures best == BestOf(hashes)
  {
    supported := supported0;
    var bestHash: Option<string> := None;
    var bestPriority := -1;
    var hi := 0;
    assert before + hashes[..hi] == before;
    while hi < |hashes|
      invariant 0 <= hi <= |hashes|
      invariant supported == SupportedOf(before + hashes[..hi])
      invariant Best(bestPriority, bestHash) == BestOf(hashes[..hi])
    {
      var md5 := Upper(hashes[hi].md5);
      var name := hashes[hi].name;
      if md5 != "" {
        supported := supported[md5 := name];
        var priority := Priority(name);
        if priority > bestPriority {
          bestPriority := priority;
          bestHash := Some(md5);
        }
      }
      assert (before + hashes[..hi + 1])[..|before| + hi] == before + hashes[..hi];
      assert hashes[..hi + 1][..hi] == hashes[..hi];
      hi := hi + 1;
    }
    assert hashes[..hi] == hashes;
    best := Best(bestPriority, bestHash);
  }

  /**
   * Builds both tables in one pass over the catalog, the way the nested
   * loops of `filter_roms` do.
   */
  method BuildIndex(games: seq<LightGame>) returns (supported: map<string, string>, preferred: map<int, string>)
    ensures supported == SupportedOf(Records(games))
    ensures preferred == PreferredMap(games)
  {
    supported, preferred := map[], map[];
    var gi := 0;
    while gi < |games|
      invariant 0 <= gi <= |games|
      invariant supported == SupportedOf(Records(games[..gi]))
      invariant preferred == PreferredMap(games[..gi])
    {
      var game := games[gi];
      var best;
      supported, best := IndexRecords(game.hashes, supported, Records(games[..gi]));
      if best.digest.Some? && best.digest.value != "" {
        preferred := preferred[game.gameId := best.digest.value];
      }
      assert games[..gi + 1][..gi] == games[..gi];
      gi := gi + 1;
    }
    assert games[..gi] == games;
  }
}
