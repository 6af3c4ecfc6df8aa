/**
 * `filter_roms`: build the index from the catalog, scan the candidate files,
 * copy one file per game into `filtered`, and print the summary with the
 * sorted list of games that were not found.
 */
module FilterRoms {
  import opened Common
  import opened Text
  import opened Catalog
  import opened RomIndex
  import opened RomScan
  import opened RomCopy

  /** The figures of the summary lines. */
  datatype Report = Report(
    hashesLoaded: nat,     // len(supported_hashes)
    totalGames: nat,       // len(games_data)
    romsScanned: nat,      // len(rom_files)
    uniqueGames: nat,      // len(found_md5s)
    kept: nat,             // kept_count
    coverage: nat,         // kept_count * 100 // total_games
    ignored: int,          // len(rom_files) - kept_count
    missing: seq<string>)  // sorted(missing_games)

  /** How a run ends: with the report, or with ZeroDivisionError on an empty catalog after the copy pass. */
  datatype Run = Completed(report: Report) | DivisionByZero(kept: nat)

  /**
   * The `found_md5s` table a run builds from the catalog and the scanned
   * files, whose digests `dig` gives (`DigestFn(io)` in a real run).
   */
  function Selection(games: seq<LightGame>, cands: seq<Candidate>, dig: Candidate -> Option<string>): Table {
    ScanSpec(games, SupportedOf(Records(games)), PreferredMap(games), cands, dig)
  }

  /** `part * 100 // total`: the percentage rounded down. */
  function Percent(part: nat, total: nat): (r: nat)
    requires total > 0
    ensures r * total <= part * 100 < (r + 1) * total
    ensures part <= total ==> r <= 100
  {
    part * 100 / total
  }

  /** Titles of the catalog games whose id got no entry, in catalog order (with repeats). */
  function MissingTitles(games: seq<LightGame>, t: Table): seq<string> {
    if games == [] then []
    else
      var g := games[|games| - 1];
      MissingTitles(games[..|games| - 1], t) + if Lookup(t, g.gameId).None? then [g.gameTitle] else []
  }

  /** A title is reported missing exactly when some catalog game with that title has no entry. */
  lemma {:induction false} MissingTitlesSpec(games: seq<LightGame>, t: Table)
    ensures |MissingTitles(games, t)| <= |games|
    ensures forall title :: title in MissingTitles(games, t) <==>
      exists k :: 0 <= k < |games| && games[k].gameTitle == title && Lookup(t, games[k].gameId).None?
  {
    if games != [] {
      var init := games[..|games| - 1];
      MissingTitlesSpec(init, t);
      forall title | exists k :: 0 <= k < |games| && games[k].gameTitle == title && Lookup(t, games[k].gameId).None?
        ensures title in MissingTitles(games, t)
      {
        var k :| 0 <= k < |games| && games[k].gameTitle == title && Lookup(t, games[k].gameId).None?;
        if k < |init| {
          assert init[k] == games[k];
        }
      }
      forall title | title in MissingTitles(games, t)
        ensures exists k :: 0 <= k < |games| && games[k].gameTitle == title && Lookup(t, games[k].gameId).None?
      {
        if title in MissingTitles(init, t) {
          var k :| 0 <= k < |init| && init[k].gameTitle == title && Lookup(t, init[k].gameId).None?;
          assert games[k] == init[k];
        }
      }
    }
  }

  /** The loop that collects `missing_games`. */
  method MissingGames(games: seq<LightGame>, found: Table) returns (missing: seq<string>)
    ensures missing == MissingTitles(games, found)
  {
    missing := [];
    for k := 0 to |games|
      invariant missing == MissingTitles(games[..k], found)
    {
      assert games[..k + 1][..k] == games[..k];
      if Lookup(found, games[k].gameId).None? {
        missing := missing + [games[k].gameTitle];
      }
    }
    assert games[..|games|] == games;
  }

  /**
   * The whole script on a catalog, the scanned files (in glob order) and an
   * output folder holding `dest` beforehand.
   */
  method FilterRoms(games: seq<LightGame>, cands: seq<Candidate>, io: Io, dest: map<string, Bytes>)
    returns (run: Run, folder: map<string, Bytes>)
    ensures folder == FolderOf(dest, Outputs(Selection(games, cands, DigestFn(io)), CopyFn(io)))
    ensures run.DivisionByZero? <==> games == []
    ensures run.DivisionByZero? ==> run.kept == |Outputs(Selection(games, cands, DigestFn(io)), CopyFn(io))|
    ensures run.Completed? ==>
      var found := Selection(games, cands, DigestFn(io));
      var kept := |Outputs(found, CopyFn(io))|;
      run.report == Report(|SupportedOf(Records(games))|, |games|, |cands|, |found|, kept,
                           Percent(kept, |games|), |cands| - kept, SortStrings(MissingTitles(games, found)))
  {
    var supported, preferred := BuildIndex(games);
    var found := Scan(games, supported, preferred, cands, DigestFn(io));
    var kept;
    kept, folder := CopyAll(found, CopyFn(io), dest);
    if |games| == 0 {
      return DivisionByZero(kept), folder;
    }
    var missing := MissingGames(games, found);
    run := Completed(Report(|supported|, |games|, |cands|, |found|, kept,
                            Percent(kept, |games|), |cands| - kept, SortStrings(missing)));
  }

  // ---------------------------------------------------------------------
  // Properties of a run.
  // ---------------------------------------------------------------------

  /** Every record of the catalog comes from one of its games. */
  lemma {:induction false} RecordsOfGames(games: seq<LightGame>, h: HashInfo)
    ensures h in Records(games) <==> exists k :: 0 <= k < |games| && h in games[k].hashes
  {
    if games != [] {
      var init := games[..|games| - 1];
      RecordsOfGames(init, h);
      if exists k :: 0 <= k < |games| && h in games[k].hashes {
        var k :| 0 <= k < |games| && h in games[k].hashes;
        if k < |init| {
          assert init[k] == games[k];
        }
      }
      if h in Records(init) {
        var k :| 0 <= k < |init| && h in init[k].hashes;
        assert games[k] == init[k];
      }
    }
  }

  /**
   * A digest is in `supported_hashes` exactly when it is not empty and some
   * game lists it: the `in supported_hashes` test of the scan only turns
   * away digests that the search over the games would not find anyway.
   */
  lemma SupportedIffListed(games: seq<LightGame>, d: string)
    ensures d in SupportedOf(Records(games)) <==>
      d != "" && exists k :: 0 <= k < |games| && Lists(games[k].hashes, d)
  {
    var rs := Records(games);
    SupportedOfSpec(rs);
    if d in SupportedOf(rs) {
      var i :| 0 <= i < |rs| && Digest(rs[i]) == d;
      RecordsOfGames(games, rs[i]);
      var k :| 0 <= k < |games| && rs[i] in games[k].hashes;
      var j :| 0 <= j < |games[k].hashes| && games[k].hashes[j] == rs[i];
    }
    if d != "" && exists k :: 0 <= k < |games| && Lists(games[k].hashes, d) {
      var k :| 0 <= k < |games| && Lists(games[k].hashes, d);
      var j :| 0 <= j < |games[k].hashes| && Digest(games[k].hashes[j]) == d;
      RecordsOfGames(games, games[k].hashes[j]);
      var i :| 0 <= i < |rs| && rs[i] == games[k].hashes[j];
    }
  }

  /**
   * The selection promise of the script: when a scanned file carries the
   * preferred digest of a game, that game's entry is such a file (the last
   * one scanned), whatever else was scanned before or after it.
   */
  lemma PreferredDigestKept(games: seq<LightGame>, cands: seq<Candidate>, dig: Candidate -> Option<string>, gid: int, j: int)
    requires 0 <= j < |cands| && gid in PreferredMap(games)
    requires dig(cands[j]) == Some(PreferredMap(games)[gid])
    ensures Lookup(Selection(games, cands, dig), gid).Some?
    ensures
      var f := Lookup(Selection(games, cands, dig), gid).value;
      && f.digest == PreferredMap(games)[gid]
      && f.index < |cands| && f.file == cands[f.index]
      && forall i :: f.index < i < |cands| ==> dig(cands[i]) != Some(PreferredMap(games)[gid])
  {
    var supported, preferred := SupportedOf(Records(games)), PreferredMap(games);
    var d := preferred[gid];
    PreferredIsListed(games, gid);
    SupportedIffListed(games, d);
    assert PreferredHit(games, supported, preferred, gid, cands[j], dig);
    KeptForPreferredWins(games, supported, preferred, cands, dig, gid);
    ScanIsPerGame(games, supported, preferred, cands, dig, gid);
    var f := KeptFor(games, supported, preferred, cands, dig, gid).value;
    forall i | f.index < i < |cands| ensures dig(cands[i]) != Some(d) {
      if dig(cands[i]) == Some(d) {
        assert PreferredHit(games, supported, preferred, gid, cands[i], dig);
      }
    }
  }

  /**
   * A catalog game is reported missing exactly when no scanned file has a
   * digest that a game with its id lists.
   */
  lemma MissingMeansUnmatched(games: seq<LightGame>, cands: seq<Candidate>, dig: Candidate -> Option<string>, k: int)
    requires 0 <= k < |games|
    ensures Lookup(Selection(games, cands, dig), games[k].gameId).None? <==>
      forall j :: 0 <= j < |cands| ==>
        dig(cands[j]).None? || dig(cands[j]).value == "" || !Hits(games, games[k].gameId, dig(cands[j]).value)
  {
    var supported, preferred := SupportedOf(Records(games)), PreferredMap(games);
    var gid := games[k].gameId;
    ScanIsPerGame(games, supported, preferred, cands, dig, gid);
    KeptForEntries(games, supported, preferred, cands, dig, gid);
    SupportedIffListed(games, "");
    forall j | 0 <= j < |cands| && dig(cands[j]).Some? && dig(cands[j]).value != ""
      ensures Matches(games, supported, gid, cands[j], dig) <==> Hits(games, gid, dig(cands[j]).value)
    {
      SupportedIffListed(games, dig(cands[j]).value);
    }
  }

  /** The set of game ids of a table. */
  function IdsOf(t: Table): set<int> {
    set i | 0 <= i < |t| :: t[i].gameId
  }

  /** The set of game ids of the catalog. */
  function CatalogIds(games: seq<LightGame>): set<int> {
    set k | 0 <= k < |games| :: games[k].gameId
  }

  lemma {:induction false} IdsOfCount(t: Table)
    requires UniqueIds(t)
    ensures |IdsOf(t)| == |t|
  {
    if t != [] {
      var init := t[..|t| - 1];
      var last := t[|t| - 1].gameId;
      IdsOfCount(init);
      assert IdsOf(t) == IdsOf(init) + {last} by {
        forall x | x in IdsOf(t) ensures x in IdsOf(init) + {last} {
          var i :| 0 <= i < |t| && t[i].gameId == x;
          if i < |init| {
            assert init[i] == t[i];
          }
        }
        forall x | x in IdsOf(init) ensures x in IdsOf(t) {
          var i :| 0 <= i < |init| && init[i].gameId == x;
          assert t[i] == init[i];
        }
        assert t[|t| - 1].gameId in IdsOf(t);
      }
      assert last !in IdsOf(init);
    }
  }

  lemma {:induction false} CatalogIdsCount(games: seq<LightGame>)
    ensures |CatalogIds(games)| <= |games|
  {
    if games != [] {
      var init := games[..|games| - 1];
      CatalogIdsCount(init);
      assert CatalogIds(games) == CatalogIds(init) + {games[|games| - 1].gameId};
    }
  }

  lemma SubsetCount(a: set<int>, b: set<int>)
    requires a <= b
    ensures |a| <= |b|
  {
    assert b == a + (b - a);
  }

  /**
   * `found_md5s` has one entry per game id, only ids of the catalog, and
   * each entry's digest is listed by a game with that id.
   */
  lemma SelectionIds(games: seq<LightGame>, cands: seq<Candidate>, dig: Candidate -> Option<string>)
    ensures UniqueIds(Selection(games, cands, dig))
    ensures forall i :: 0 <= i < |Selection(games, cands, dig)| ==>
      var s := Selection(games, cands, dig)[i];
      Hits(games, s.gameId, s.found.digest) && dig(s.found.file) == Some(s.found.digest)
    ensures IdsOf(Selection(games, cands, dig)) <= CatalogIds(games)
    ensures |Selection(games, cands, dig)| <= |CatalogIds(games)| <= |games|
  {
    var supported, preferred := SupportedOf(Records(games)), PreferredMap(games);
    var t := Selection(games, cands, dig);
    ScanIsPerGame(games, supported, preferred, cands, dig, 0);
    forall i | 0 <= i < |t|
      ensures Hits(games, t[i].gameId, t[i].found.digest) && dig(t[i].found.file) == Some(t[i].found.digest)
    {
      LookupAt(t, i);
      ScanIsPerGame(games, supported, preferred, cands, dig, t[i].gameId);
      KeptForValid(games, supported, preferred, cands, dig, t[i].gameId);
    }
    forall gid | gid in IdsOf(t) ensures gid in CatalogIds(games) {
      var i :| 0 <= i < |t| && t[i].gameId == gid;
      var k :| 0 <= k < |games| && games[k].gameId == gid && Lists(games[k].hashes, t[i].found.digest);
    }
    IdsOfCount(t);
    CatalogIdsCount(games);
    SubsetCount(IdsOf(t), CatalogIds(games));
  }

  /**
   * The summary figures are consistent: files written <= games found <=
   * catalog games, so the printed percentage never exceeds 100.
   */
  lemma ReportBounds(games: seq<LightGame>, cands: seq<Candidate>, dig: Candidate -> Option<string>, copy: Candidate -> CopyResult)
    requires games != []
    ensures
      var found := Selection(games, cands, dig);
      var kept := |Outputs(found, copy)|;
      kept <= |found| <= |games| && Percent(kept, |games|) <= 100
  {
    var found := Selection(games, cands, dig);
    SelectionIds(games, cands, dig);
    OutputsBound(found, copy);
  }

  /**
   * A single file whose digest two games list is kept for both and copied
   * twice, so "ROMs ignored" comes out negative.
   */
  lemma SharedDigestCountsTwice(games: seq<LightGame>, c: Candidate, dig: Candidate -> Option<string>,
                                copy: Candidate -> CopyResult, a: int, b: int)
    requires a != b
    requires dig(c).Some? && dig(c).value != ""
    requires Hits(games, a, dig(c).value) && Hits(games, b, dig(c).value)
    requires copy(c).Written?
    ensures
      var found := Selection(games, [c], dig);
      |Outputs(found, copy)| == |found| >= 2 && 1 - |Outputs(found, copy)| < 0
  {
    var supported, preferred := SupportedOf(Records(games)), PreferredMap(games);
    var d := dig(c).value;
    var found := Selection(games, [c], dig);
    var ka :| 0 <= ka < |games| && games[ka].gameId == a && Lists(games[ka].hashes, d);
    SupportedIffListed(games, d);
    KeptForMatched(games, supported, preferred, [c], dig, a, 0);
    KeptForMatched(games, supported, preferred, [c], dig, b, 0);
    ScanIsPerGame(games, supported, preferred, [c], dig, a);
    ScanIsPerGame(games, supported, preferred, [c], dig, b);
    assert a in IdsOf(found) && b in IdsOf(found);
    IdsOfCount(found);
    SubsetCount({a, b}, IdsOf(found));
    forall i | 0 <= i < |found| ensures copy(found[i].found.file).Written? {
      LookupAt(found, i);
      ScanIsPerGame(games, supported, preferred, [c], dig, found[i].gameId);
      KeptForValid(games, supported, preferred, [c], dig, found[i].gameId);
    }
    OutputsBound(found, copy);
  }
}
