/**
 * The scan pass of `filter_roms`: each candidate file's digest (computed
 * directly, or from the first ROM member of a ZIP archive) is looked up in
 * the catalog, and `found_md5s` keeps at most one file per game: the first
 * match, replaced only by a file carrying the game's preferred digest.
 */
module RomScan {
  import opened Common
  import opened Text
  import opened Catalog
  import opened RomIndex

  /** A member of a ZIP archive; `data` is `None` when reading it raises. */
  datatype Entry = Entry(name: string, data: Option<Bytes>)

  /**
   * The library code the scan relies on: `md5` is the lower-case hex MD5 of
   * some bytes, `unzip` lists the members of a ZIP archive in order (`None`
   * when `zipfile` rejects the bytes as a ZIP).
   */
  datatype Io = Io(md5: Bytes -> string, unzip: Bytes -> Option<seq<Entry>>)

  /**
   * A file of the ROM folder: its name (the last path component), its
   * contents when it is scanned and when it is copied (`None` when reading
   * raises `IOError`/`OSError`), and whether writing its output succeeds.
   */
  datatype Candidate = Candidate(name: string, atScan: Option<Bytes>, atCopy: Option<Bytes>, destOk: bool)

  /** `hexdigest().upper()`. */
  function HexDigest(io: Io, b: Bytes): string {
    Upper(io.md5(b))
  }

  /** An archive member counts as a ROM when its name ends, case-sensitively, in .z64, .n64 or .v64. */
  predicate IsRomEntryName(n: string) {
    EndsWith(n, ".z64") || EndsWith(n, ".n64") || EndsWith(n, ".v64")
  }

  /** The position of the first ROM member of an archive (`rom_files[0]`). */
  function FirstRomEntry(es: seq<Entry>): (r: Option<nat>)
    ensures r.None? <==> forall j :: 0 <= j < |es| ==> !IsRomEntryName(es[j].name)
    ensures r.Some? ==> r.value < |es| && IsRomEntryName(es[r.value].name)
    ensures r.Some? ==> forall j :: 0 <= j < r.value ==> !IsRomEntryName(es[j].name)
  {
    if es == [] then None
    else if IsRomEntryName(es[0].name) then Some(0)
    else
      match FirstRomEntry(es[1..])
      case Some(i) => Some(i + 1)
      case None => None
  }

  /** A file is handled as an archive when `suffix.lower()` is ".zip". */
  predicate IsArchiveName(name: string) {
    Lower(Suffix(name)) == ".zip"
  }

  /**
   * The archive test on the name itself: the name ends in ".zip" in any
   * case and has at least one character before the dot (".zip" alone has no
   * suffix).
   */
  lemma ArchiveNameSpec(name: string)
    ensures IsArchiveName(name) <==> |name| >= 5 && Lower(name[|name| - 4..]) == ".zip"
  {
    if |name| >= 5 && Lower(name[|name| - 4..]) == ".zip" {
      var i := |name| - 4;
      assert LowerChar(name[i]) == '.';
      assert forall j :: i < j < |name| ==> LowerChar(name[j]) == ".zip"[j - i] != '.';
      assert '.' !in name[i + 1..];
      assert Suffix(name) == name[i..];
    }
  }

  /**
   * `calculate_md5_from_zip`: the digest of the first ROM member, or `None`
   * when the file cannot be read, is not a ZIP, has no ROM member, or the
   * member cannot be read.
   */
  function ArchiveDigest(file: Option<Bytes>, io: Io): (r: Option<string>)
    ensures r.Some? <==>
      && file.Some? && io.unzip(file.value).Some?
      && FirstRomEntry(io.unzip(file.value).value).Some?
      && io.unzip(file.value).value[FirstRomEntry(io.unzip(file.value).value).value].data.Some?
    ensures r.Some? ==>
      var es := io.unzip(file.value).value;
      r.value == HexDigest(io, es[FirstRomEntry(es).value].data.value)
  {
    match file
    case None => None
    case Some(b) =>
      match io.unzip(b)
      case None => None
      case Some(es) =>
        match FirstRomEntry(es)
        case None => None
        case Some(i) =>
          match es[i].data
          case None => None
          case Some(d) => Some(HexDigest(io, d))
  }

  /**
   * The digest the scan computes for a candidate; `None` also stands for a
   * loose file whose read raised, which the scan skips with `continue`.
   */
  function CandidateDigest(c: Candidate, io: Io): (r: Option<string>)
    ensures IsArchiveName(c.name) ==> r == ArchiveDigest(c.atScan, io)
    ensures !IsArchiveName(c.name) ==> (r.Some? <==> c.atScan.Some?)
    ensures !IsArchiveName(c.name) && r.Some? ==> r.value == HexDigest(io, c.atScan.value)
    ensures r.Some? ==> Upper(r.value) == r.value
  {
    if IsArchiveName(c.name) then ArchiveDigest(c.atScan, io)
    else
      match c.atScan
      case None => None
      case Some(b) => Some(HexDigest(io, b))
  }

  /** The digest of every candidate, as the scan computes it. */
  function DigestFn(io: Io): Candidate -> Option<string> {
    c => CandidateDigest(c, io)
  }

  // ---------------------------------------------------------------------
  // found_md5s: a Python dict from game_id to (digest, file), kept as the
  // list of its items in insertion order.
  // ---------------------------------------------------------------------

  /** The value stored for a game: digest, position of the file in the scan, the file. */
  datatype Found = Found(digest: string, index: nat, file: Candidate)

  datatype Slot = Slot(gameId: int, found: Found)

  type Table = seq<Slot>

  /** No game id occurs twice: the table is a dict. */
  predicate UniqueIds(t: Table) {
    forall i, j :: 0 <= i < j < |t| ==> t[i].gameId != t[j].gameId
  }

  function IndexOf(t: Table, gid: int): (r: Option<nat>)
    ensures r.None? <==> forall i :: 0 <= i < |t| ==> t[i].gameId != gid
    ensures r.Some? ==> r.value < |t| && t[r.value].gameId == gid
  {
    if t == [] then None
    else if t[0].gameId == gid then Some(0)
    else
      match IndexOf(t[1..], gid)
      case Some(i) => Some(i + 1)
      case None => None
  }

  /** `found_md5s.get(game_id)`. */
  function Lookup(t: Table, gid: int): Option<Found> {
    match IndexOf(t, gid)
    case Some(i) => Some(t[i].found)
    case None => None
  }

  /** `found_md5s[game_id] = f`: overwrite in place, or append a new key. */
  function Put(t: Table, gid: int, f: Found): Table {
    match IndexOf(t, gid)
    case Some(i) => t[i := Slot(gid, f)]
    case None => t + [Slot(gid, f)]
  }

  /** In a dict, looking a key up finds the slot that holds it. */
  lemma LookupAt(t: Table, i: int)
    requires UniqueIds(t) && 0 <= i < |t|
    ensures Lookup(t, t[i].gameId) == Some(t[i].found)
  {
  }

  /**
   * Assigning a key keeps the table a dict, makes the key map to the new
   * value, leaves every other key alone, and adds a slot only for a new key.
   */
  lemma PutSpec(t: Table, gid: int, f: Found)
    requires UniqueIds(t)
    ensures UniqueIds(Put(t, gid, f))
    ensures forall g :: Lookup(Put(t, gid, f), g) == if g == gid then Some(f) else Lookup(t, g)
    ensures |Put(t, gid, f)| == if Lookup(t, gid).None? then |t| + 1 else |t|
  {
    var u := Put(t, gid, f);
    // the slot that now holds `gid`
    var p := if IndexOf(t, gid).Some? then IndexOf(t, gid).value else |t|;
    assert p < |u| && u[p] == Slot(gid, f);
    assert forall i :: 0 <= i < |u| && i != p ==> u[i] == t[i] && t[i].gameId != gid;
    assert UniqueIds(u);
    forall g ensures Lookup(u, g) == if g == gid then Some(f) else Lookup(t, g) {
      LookupAt(u, p);
      if g != gid {
        match IndexOf(u, g)
        case Some(i) =>
          LookupAt(u, i);
          LookupAt(t, i);
        case None =>
          assert IndexOf(t, g).None?;
      }
    }
  }

  // ---------------------------------------------------------------------
  // The selection rule, one candidate at a time.
  // ---------------------------------------------------------------------

  /** `best_md5 and md5 == best_md5` with `best_md5 = game_priority.get(game_id)`. */
  predicate Prefers(preferred: map<int, string>, gid: int, d: string) {
    gid in preferred && preferred[gid] != "" && d == preferred[gid]
  }

  /** Keep the first match for a game; replace it only with the preferred digest. */
  function Update(t: Table, gid: int, preferred: map<int, string>, f: Found): Table {
    match Lookup(t, gid)
    case None => Put(t, gid, f)
    case Some(_) => if Prefers(preferred, gid, f.digest) then Put(t, gid, f) else t
  }

  /**
   * One assignment of `found_md5s`: a game seen for the first time gets the
   * file, a game already holding one switches only to its preferred digest,
   * and no other game's entry changes.
   */
  lemma UpdateSpec(t: Table, gid: int, preferred: map<int, string>, f: Found)
    requires UniqueIds(t)
    ensures UniqueIds(Update(t, gid, preferred, f))
    ensures Lookup(Update(t, gid, preferred, f), gid) ==
      if Lookup(t, gid).None? || Prefers(preferred, gid, f.digest) then Some(f) else Lookup(t, gid)
    ensures forall g :: g != gid ==> Lookup(Update(t, gid, preferred, f), g) == Lookup(t, g)
  {
    PutSpec(t, gid, f);
  }

  /**
   * The loop over the games for one digest: every game with a record of
   * that digest is updated once (the `break` leaves the record loop only).
   */
  function Assign(t: Table, games: seq<LightGame>, preferred: map<int, string>, f: Found): Table {
    if games == [] then t
    else
      var t' := Assign(t, games[..|games| - 1], preferred, f);
      var g := games[|games| - 1];
      if Lists(g.hashes, f.digest) then Update(t', g.gameId, preferred, f) else t'
  }

  /** One iteration of the scan loop for the candidate at position `i`. */
  function Step(t: Table, games: seq<LightGame>, supported: map<string, string>, preferred: map<int, string>,
                c: Candidate, i: nat, dig: Candidate -> Option<string>): Table
  {
    match dig(c)
    case None => t
    case Some(d) => if d in supported then Assign(t, games, preferred, Found(d, i, c)) else t
  }

  /** `found_md5s` after scanning `cands` in order. */
  function ScanSpec(games: seq<LightGame>, supported: map<string, string>, preferred: map<int, string>,
                    cands: seq<Candidate>, dig: Candidate -> Option<string>): Table
  {
    if cands == [] then []
    else Step(ScanSpec(games, supported, preferred, cands[..|cands| - 1], dig), games, supported, preferred,
              cands[|cands| - 1], |cands| - 1, dig)
  }

  /** Some game with id `gid` lists digest `d`. */
  predicate Hits(games: seq<LightGame>, gid: int, d: string) {
    exists k | 0 <= k < |games| :: games[k].gameId == gid && Lists(games[k].hashes, d)
  }

  /** Candidate `c` has a supported digest that a game with id `gid` lists. */
  predicate Matches(games: seq<LightGame>, supported: map<string, string>, gid: int, c: Candidate, dig: Candidate -> Option<string>) {
    var d := dig(c);
    d.Some? && d.value in supported && Hits(games, gid, d.value)
  }

  /** Candidate `c` matches game `gid` with that game's preferred digest. */
  predicate PreferredHit(games: seq<LightGame>, supported: map<string, string>, preferred: map<int, string>,
                         gid: int, c: Candidate, dig: Candidate -> Option<string>)
  {
    Matches(games, supported, gid, c, dig) && Prefers(preferred, gid, dig(c).value)
  }

  /**
   * The selection rule seen from one game id alone: the entry kept for
   * `gid` after scanning `cands`, defined without the other games.
   */
  function KeptFor(games: seq<LightGame>, supported: map<string, string>, preferred: map<int, string>,
                   cands: seq<Candidate>, dig: Candidate -> Option<string>, gid: int): Option<Found>
  {
    if cands == [] then None
    else
      var prev := KeptFor(games, supported, preferred, cands[..|cands| - 1], dig, gid);
      var c := cands[|cands| - 1];
      if !Matches(games, supported, gid, c, dig) then prev
      else if prev.None? || Prefers(preferred, gid, dig(c).value)
      then Some(Found(dig(c).value, |cands| - 1, c))
      else prev
  }

  /** For one game id, the loop over the games acts as a single selection step. */
  lemma {:induction false} AssignAt(t: Table, games: seq<LightGame>, preferred: map<int, string>, f: Found, gid: int)
    requires UniqueIds(t)
    ensures UniqueIds(Assign(t, games, preferred, f))
    ensures Lookup(Assign(t, games, preferred, f), gid) ==
      if !Hits(games, gid, f.digest) then Lookup(t, gid)
      else if Lookup(t, gid).None? || Prefers(preferred, gid, f.digest) then Some(f)
      else Lookup(t, gid)
  {
    if games != [] {
      var init, g := games[..|games| - 1], games[|games| - 1];
      assert games == init + [g];
      AssignAt(t, init, preferred, f, gid);
      var t' := Assign(t, init, preferred, f);
      if Lists(g.hashes, f.digest) {
        AssignAt(t, init, preferred, f, g.gameId);
        PutSpec(t', g.gameId, f);
      }
      assert Hits(games, gid, f.digest) <==> Hits(init, gid, f.digest) || (g.gameId == gid && Lists(g.hashes, f.digest)) by {
        if Hits(games, gid, f.digest) {
          var k :| 0 <= k < |games| && games[k].gameId == gid && Lists(games[k].hashes, f.digest);
          if k < |init| { assert init[k] == games[k]; }
        }
        if Hits(init, gid, f.digest) {
          var k :| 0 <= k < |init| && init[k].gameId == gid && Lists(init[k].hashes, f.digest);
          assert games[k] == init[k];
        }
      }
    }
  }

  /** One scan step, seen from one game id. */
  lemma StepAt(t: Table, games: seq<LightGame>, supported: map<string, string>, preferred: map<int, string>,
               c: Candidate, i: nat, dig: Candidate -> Option<string>, gid: int)
    requires UniqueIds(t)
    ensures UniqueIds(Step(t, games, supported, preferred, c, i, dig))
    ensures Lookup(Step(t, games, supported, preferred, c, i, dig), gid) ==
      if !Matches(games, supported, gid, c, dig) then Lookup(t, gid)
      else if Lookup(t, gid).None? || Prefers(preferred, gid, dig(c).value)
      then Some(Found(dig(c).value, i, c))
      else Lookup(t, gid)
  {
    match dig(c)
    case None =>
    case Some(d) =>
      if d in supported {
        AssignAt(t, games, preferred, Found(d, i, c), gid);
      }
  }

  /**
   * `found_md5s` holds at most one entry per game, and the entry of each
   * game is the one the per-game selection rule keeps.
   */
  lemma {:induction false} ScanIsPerGame(games: seq<LightGame>, supported: map<string, string>, preferred: map<int, string>,
                                         cands: seq<Candidate>, dig: Candidate -> Option<string>, gid: int)
    ensures UniqueIds(ScanSpec(games, supported, preferred, cands, dig))
    ensures Lookup(ScanSpec(games, supported, preferred, cands, dig), gid) == KeptFor(games, supported, preferred, cands, dig, gid)
  {
    if cands != [] {
      var init, c := cands[..|cands| - 1], cands[|cands| - 1];
      ScanIsPerGame(games, supported, preferred, init, dig, gid);
      StepAt(ScanSpec(games, supported, preferred, init, dig), games, supported, preferred, c, |init|, dig, gid);
    }
  }

  /** The entry kept for a game names a scanned candidate whose digest that game lists. */
  lemma {:induction false} KeptForValid(games: seq<LightGame>, supported: map<string, string>, preferred: map<int, string>,
                                        cands: seq<Candidate>, dig: Candidate -> Option<string>, gid: int)
    requires KeptFor(games, supported, preferred, cands, dig, gid).Some?
    ensures
      var f := KeptFor(games, supported, preferred, cands, dig, gid).value;
      && f.index < |cands| && f.file == cands[f.index]
      && dig(f.file) == Some(f.digest)
      && Matches(games, supported, gid, f.file, dig)
  {
    var init := cands[..|cands| - 1];
    var prev := KeptFor(games, supported, preferred, init, dig, gid);
    if KeptFor(games, supported, preferred, cands, dig, gid) == prev {
      KeptForValid(games, supported, preferred, init, dig, gid);
      assert cands[prev.value.index] == init[prev.value.index];
    }
  }

  /** Once a candidate matches a game, the game has an entry. */
  lemma {:induction false} KeptForMatched(games: seq<LightGame>, supported: map<string, string>, preferred: map<int, string>,
                                          cands: seq<Candidate>, dig: Candidate -> Option<string>, gid: int, j: int)
    requires 0 <= j < |cands| && Matches(games, supported, gid, cands[j], dig)
    ensures KeptFor(games, supported, preferred, cands, dig, gid).Some?
  {
    var init := cands[..|cands| - 1];
    if j < |init| {
      assert init[j] == cands[j];
      KeptForMatched(games, supported, preferred, init, dig, gid, j);
    }
  }

  /**
   * A game has an entry exactly when some scanned candidate matches it, and
   * the entry names a scanned candidate whose digest that game lists.
   */
  lemma KeptForEntries(games: seq<LightGame>, supported: map<string, string>, preferred: map<int, string>,
                       cands: seq<Candidate>, dig: Candidate -> Option<string>, gid: int)
    ensures KeptFor(games, supported, preferred, cands, dig, gid).Some? <==>
      exists j :: 0 <= j < |cands| && Matches(games, supported, gid, cands[j], dig)
    ensures KeptFor(games, supported, preferred, cands, dig, gid).Some? ==>
      var f := KeptFor(games, supported, preferred, cands, dig, gid).value;
      && f.index < |cands| && f.file == cands[f.index]
      && dig(f.file) == Some(f.digest)
      && Matches(games, supported, gid, f.file, dig)
  {
    if KeptFor(games, supported, preferred, cands, dig, gid).Some? {
      KeptForValid(games, supported, preferred, cands, dig, gid);
    }
    if exists j :: 0 <= j < |cands| && Matches(games, supported, gid, cands[j], dig) {
      var j :| 0 <= j < |cands| && Matches(games, supported, gid, cands[j], dig);
      KeptForMatched(games, supported, preferred, cands, dig, gid, j);
    }
  }

  /**
   * When some scanned candidate carries a game's preferred digest, the entry
   * kept for that game is the LAST such candidate.
   */
  lemma {:induction false} KeptForPreferredWins(games: seq<LightGame>, supported: map<string, string>, preferred: map<int, string>,
                                                cands: seq<Candidate>, dig: Candidate -> Option<string>, gid: int)
    requires exists j :: 0 <= j < |cands| && PreferredHit(games, supported, preferred, gid, cands[j], dig)
    ensures KeptFor(games, supported, preferred, cands, dig, gid).Some?
    ensures
      var f := KeptFor(games, supported, preferred, cands, dig, gid).value;
      && f.index < |cands| && f.file == cands[f.index]
      && PreferredHit(games, supported, preferred, gid, f.file, dig)
      && f.digest == preferred[gid]
      && forall j :: f.index < j < |cands| ==> !PreferredHit(games, supported, preferred, gid, cands[j], dig)
  {
    var init, c := cands[..|cands| - 1], cands[|cands| - 1];
    var n := |init|;
    assert cands == init + [c];
    if !PreferredHit(games, supported, preferred, gid, c, dig) {
      var j :| 0 <= j < |cands| && PreferredHit(games, supported, preferred, gid, cands[j], dig);
      assert j < n && init[j] == cands[j];
      KeptForPreferredWins(games, supported, preferred, init, dig, gid);
      var f := KeptFor(games, supported, preferred, init, dig, gid).value;
      assert cands[f.index] == init[f.index];
      forall j | f.index < j < |cands| ensures !PreferredHit(games, supported, preferred, gid, cands[j], dig) {
        if j < n { assert cands[j] == init[j]; }
      }
    }
  }

  /**
   * When no scanned candidate carries a game's preferred digest, the entry
   * kept for that game is the FIRST candidate that matched it.
   */
  lemma {:induction false} KeptForFirstMatchStays(games: seq<LightGame>, supported: map<string, string>, preferred: map<int, string>,
                                                  cands: seq<Candidate>, dig: Candidate -> Option<string>, gid: int)
    requires forall j :: 0 <= j < |cands| ==> !PreferredHit(games, supported, preferred, gid, cands[j], dig)
    requires KeptFor(games, supported, preferred, cands, dig, gid).Some?
    ensures
      var f := KeptFor(games, supported, preferred, cands, dig, gid).value;
      && f.index < |cands|
      && forall j :: 0 <= j < f.index ==> !Matches(games, supported, gid, cands[j], dig)
  {
    var init, c := cands[..|cands| - 1], cands[|cands| - 1];
    var n := |init|;
    assert cands == init + [c];
    var prev := KeptFor(games, supported, preferred, init, dig, gid);
    KeptForEntries(games, supported, preferred, init, dig, gid);
    if prev.Some? {
      forall j | 0 <= j < n ensures !PreferredHit(games, supported, preferred, gid, init[j], dig) {
        assert init[j] == cands[j];
      }
      KeptForFirstMatchStays(games, supported, preferred, init, dig, gid);
      forall j | 0 <= j < prev.value.index ensures !Matches(games, supported, gid, cands[j], dig) {
        assert cands[j] == init[j];
      }
    } else {
      forall j | 0 <= j < n ensures !Matches(games, supported, gid, cands[j], dig) {
        assert cands[j] == init[j];
      }
    }
  }

  /** The loop over the games changes nothing for a digest no game lists. */
  lemma {:induction false} AssignNoHit(t: Table, games: seq<LightGame>, preferred: map<int, string>, f: Found)
    requires forall k :: 0 <= k < |games| ==> !Lists(games[k].hashes, f.digest)
    ensures Assign(t, games, preferred, f) == t
  {
    if games != [] {
      var init := games[..|games| - 1];
      assert forall k :: 0 <= k < |init| ==> init[k] == games[k];
      AssignNoHit(t, init, preferred, f);
    }
  }

  /**
   * A candidate that matches no game leaves `found_md5s` unchanged: no
   * digest (archive without ROM member, unreadable file, bad archive), a
   * digest that is not supported, or one that no game lists.
   */
  lemma StepNoMatchUnchanged(t: Table, games: seq<LightGame>, supported: map<string, string>, preferred: map<int, string>,
                             c: Candidate, i: nat, dig: Candidate -> Option<string>)
    requires forall k :: 0 <= k < |games| ==> !Matches(games, supported, games[k].gameId, c, dig)
    ensures Step(t, games, supported, preferred, c, i, dig) == t
  {
    match dig(c)
    case None =>
    case Some(d) =>
      if d in supported {
        forall k | 0 <= k < |games| ensures !Lists(games[k].hashes, d) {
          if Lists(games[k].hashes, d) {
            assert Hits(games, games[k].gameId, d);
          }
        }
        AssignNoHit(t, games, preferred, Found(d, i, c));
      }
  }

  /**
   * The body of the scan loop for a supported digest: the loop over the
   * games and, per game, the loop over its records that stops at the first
   * record carrying the digest.
   */
  method AssignDigest(found0: Table, games: seq<LightGame>, preferred: map<int, string>, entry: Found)
    returns (found: Table)
    ensures found == Assign(found0, games, preferred, entry)
  {
    found := found0;
    var gi := 0;
    while gi < |games|
      invariant 0 <= gi <= |games|
      invariant found == Assign(found0, games[..gi], preferred, entry)
    {
      var hashes := games[gi].hashes;
      assert games[..gi + 1][..gi] == games[..gi];
      var hi := 0;
      while hi < |hashes|
        invariant 0 <= hi <= |hashes|
        invariant forall j :: 0 <= j < hi ==> Digest(hashes[j]) != entry.digest
      {
        if Upper(hashes[hi].md5) == entry.digest {
          var gameId := games[gi].gameId;
          if Lookup(found, gameId).None? {
            found := Put(found, gameId, entry);
          } else {
            var bestMd5 := if gameId in preferred then Some(preferred[gameId]) else None;
            if bestMd5.Some? && bestMd5.value != "" && entry.digest == bestMd5.value {
              found := Put(found, gameId, entry);
            }
          }
          assert Lists(hashes, entry.digest);
          break;
        }
        hi := hi + 1;
      }
      gi := gi + 1;
    }
    assert games[..gi] == games;
  }

  /** The scan loop of `filter_roms` over the candidate files, in order. */
  method Scan(games: seq<LightGame>, supported: map<string, string>, preferred: map<int, string>,
              cands: seq<Candidate>, dig: Candidate -> Option<string>)
    returns (found: Table)
    ensures found == ScanSpec(games, supported, preferred, cands, dig)
  {
    found := [];
    var i := 0;
    while i < |cands|
      invariant 0 <= i <= |cands|
      invariant found == ScanSpec(games, supported, preferred, cands[..i], dig)
    {
      var romFile := cands[i];
      var md5 := dig(romFile);
      assert cands[..i + 1][..i] == cands[..i];
      assert ScanSpec(games, supported, preferred, cands[..i + 1], dig)
          == Step(found, games, supported, preferred, romFile, i, dig);
      if md5.Some? && md5.value in supported {
        found := AssignDigest(found, games, preferred, Found(md5.value, i, romFile));
      }
      i := i + 1;
    }
    assert cands[..i] == cands;
  }
}
