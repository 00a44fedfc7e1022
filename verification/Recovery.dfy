/**
 Crash-and-resume recovery of a damaged session.db. The directory is a map from
 names to contents; every create, write, rename and remove is one step, and a
 run is killed when its fuel of steps is used up. A kill leaves the directory as
 the last step left it, and the next run starts from there.
 */
module Recovery {
  import opened Common

  // ------------------------------------------------------------------
  // Databases and the directory
  // ------------------------------------------------------------------

  datatype Part = MainFile | WalFile | ShmFile

  /** The marker, session.db, session.recover-tmp and session.db.bak-<ts>, each database with its sidecars. */
  datatype Name = Marker | Db(part: Part) | Tmp(part: Part) | Bak(ts: nat, part: Part)

  type RowId = n: int | 0 < n witness 1

  /** Rows of the two tables; sessions are copied by their name, events by their id. */
  datatype Key = SessionRow(session: string) | EventRow(id: RowId)

  datatype Cell = Row(data: int) | Damaged

  type Pages = map<Key, Cell>

  /** A main file holds pages and user_version; a write-ahead log holds newer pages over them. */
  datatype Content =
    | Sentinel
    | WalIndex
    | Main(pages: Pages, version: nat)
    | Wal(frames: Pages, newVersion: Option<nat>)

  type Dir = map<Name, Content>

  /** What a reader of the database sees: the main file under its own log. */
  datatype Image = Image(pages: Pages, version: nat)

  function Overlay(main: Content, wal: Option<Content>): Image
    requires main.Main? && (wal.Some? ==> wal.value.Wal?)
  {
    match wal
    case None => Image(main.pages, main.version)
    case Some(w) => Image(main.pages + w.frames, if w.newVersion.Some? then w.newVersion.value else main.version)
  }

  function Lookup(d: Dir, n: Name): Option<Content> {
    if n in d then Some(d[n]) else None
  }

  /** The database files are where databases are, and logs where logs are. */
  predicate WellTyped(d: Dir) {
    && (forall n :: n in d ==> (n.Marker? <==> d[n].Sentinel?))
    && (forall n :: n in d && !n.Marker? ==>
          && (n.part.MainFile? <==> d[n].Main?)
          && (n.part.WalFile? <==> d[n].Wal?)
          && (n.part.ShmFile? <==> d[n].WalIndex?))
  }

  const SCHEMA_VERSION: nat := 1

  /** Strict quick_check, taken as exact: every page the reader sees is intact. */
  predicate Sound(img: Image) {
    forall k :: k in img.pages ==> img.pages[k].Row?
  }

  /**
   What the rescue of an image keeps: every readable row, under the current
   schema, but for the rows that damage withholds from the copying queries.
   */
  function Rescue(img: Image, lost: set<Key>): Image {
    Image(map k | k in img.pages && img.pages[k].Row? && k !in lost :: img.pages[k], SCHEMA_VERSION)
  }

  function DbImage(d: Dir): Image
    requires WellTyped(d) && Db(MainFile) in d
  {
    Overlay(d[Db(MainFile)], Lookup(d, Db(WalFile)))
  }

  predicate TmpHealthy(d: Dir) {
    && Tmp(MainFile) in d && Tmp(WalFile) !in d && Tmp(ShmFile) !in d
    && d[Tmp(MainFile)].Main?
    && Sound(Overlay(d[Tmp(MainFile)], None))
    && d[Tmp(MainFile)].version == SCHEMA_VERSION
  }

  // ------------------------------------------------------------------
  // What every state of every run satisfies
  // ------------------------------------------------------------------

  /**
   The damaged main file, its log if it has one, complete backups that were
   there before, and the rows that copying passes over. RescuedRows says which
   rows those can be; without damage to the tables there are none. copyLost
   allows for a finished copy that disappears, which no run causes.
   */
  datatype Story = Story(main: Content, wal: Option<Content>, older: Dir, lost: set<Key>, copyLost: bool) {
    predicate Proper() {
      && main.Main? && (wal.Some? ==> wal.value.Wal?)
      && !Sound(Overlay(main, wal))
      && forall n :: n in older ==> n.Bak? && Bak(n.ts, MainFile) in older
    }

    /** The full rescue of the main file with its log. */
    function Full(): Image
      requires Proper()
    {
      Rescue(Overlay(main, wal), lost)
    }

    function FullMain(): Content
      requires Proper()
    {
      Main(Full().pages, SCHEMA_VERSION)
    }
  }

  /** The original is in place with exactly its own log. */
  ghost predicate OriginalInPlace(d: Dir, s: Story) {
    && Lookup(d, Db(MainFile)) == Some(s.main)
    && Lookup(d, Db(WalFile)) == s.wal
  }

  /** The rescue copy is one file and complete. */
  ghost predicate TmpDone(d: Dir, s: Story)
    requires s.Proper()
  {
    && Lookup(d, Tmp(MainFile)) == Some(s.FullMain())
    && Tmp(WalFile) !in d && Tmp(ShmFile) !in d
  }

  ghost predicate TmpGone(d: Dir) {
    Tmp(MainFile) !in d && Tmp(WalFile) !in d && Tmp(ShmFile) !in d
  }

  ghost predicate OriginalKept(d: Dir, s: Story) {
    exists ts: nat :: Lookup(d, Bak(ts, MainFile)) == Some(s.main)
  }

  /** Before backup begins: the original whole; a copy that looks healthy is the complete one. */
  ghost predicate Rescuing(d: Dir, s: Story)
    requires s.Proper()
  {
    OriginalInPlace(d, s) && (TmpHealthy(d) ==> TmpDone(d, s))
  }

  /** Backup under way: the copy is complete, the original main still there, its log perhaps gone. */
  ghost predicate BackingUp(d: Dir, s: Story)
    requires s.Proper()
  {
    && Marker in d && TmpDone(d, s)
    && Lookup(d, Db(MainFile)) == Some(s.main)
    && (Db(WalFile) in d ==> Some(d[Db(WalFile)]) == s.wal)
  }

  /** Original moved away, copy complete, not yet published. */
  ghost predicate Unpublished(d: Dir, s: Story)
    requires s.Proper()
  {
    && Marker in d && TmpDone(d, s) && OriginalKept(d, s)
    && Db(MainFile) !in d && Db(WalFile) !in d && Db(ShmFile) !in d
  }

  ghost predicate Published(d: Dir, s: Story)
    requires s.Proper()
  {
    && TmpGone(d) && OriginalKept(d, s)
    && Lookup(d, Db(MainFile)) == Some(s.FullMain())
    && Db(WalFile) !in d && Db(ShmFile) !in d
  }

  ghost predicate IsLatest(d: Dir, ts: nat) {
    Bak(ts, MainFile) in d && forall t: nat :: Bak(t, MainFile) in d ==> t <= ts
  }

  /** The copy was lost after the original had been moved: the newest backup family is the original. */
  ghost predicate Restoring(d: Dir, s: Story, ts: nat) {
    && Marker in d && !TmpHealthy(d) && Db(MainFile) !in d
    && IsLatest(d, ts) && d[Bak(ts, MainFile)] == s.main && Bak(ts, MainFile) !in s.older
    && (|| (Lookup(d, Bak(ts, WalFile)) == s.wal && Db(WalFile) !in d)
        || (Bak(ts, WalFile) !in d && Lookup(d, Db(WalFile)) == s.wal))
  }

  ghost predicate Inv(d: Dir, s: Story) {
    && s.Proper() && WellTyped(d)
    && (forall n :: n in s.older ==> Lookup(d, n) == Some(s.older[n]))
    && (|| Rescuing(d, s) || BackingUp(d, s) || Unpublished(d, s) || Published(d, s)
        || (s.copyLost && exists ts: nat :: Restoring(d, s, ts)))
  }

  /** A finished recovery. */
  ghost predicate Recovered(d: Dir, s: Story) {
    Inv(d, s) && Published(d, s) && Marker !in d
  }

  // ------------------------------------------------------------------
  // What the invariant means
  // ------------------------------------------------------------------

  /** Somewhere a complete copy stands: the original with its own log, the finished copy, or the result. */
  ghost predicate CompleteCopyExists(d: Dir, s: Story)
    requires s.Proper() && WellTyped(d)
  {
    || OriginalInPlace(d, s)
    || TmpDone(d, s)
    || (Db(MainFile) in d && DbImage(d) == s.Full())
    || exists ts: nat :: OriginalApart(d, s, ts)
  }

  /** The original main in a backup, its log beside it or already back in place. */
  ghost predicate OriginalApart(d: Dir, s: Story, ts: nat) {
    && Lookup(d, Bak(ts, MainFile)) == Some(s.main)
    && (Lookup(d, Bak(ts, WalFile)) == s.wal || Lookup(d, Db(WalFile)) == s.wal)
  }

  lemma NothingIsLost(d: Dir, s: Story)
    requires Inv(d, s)
    ensures CompleteCopyExists(d, s)
    ensures !s.copyLost ==>
      OriginalInPlace(d, s) || TmpDone(d, s) || (Db(MainFile) in d && DbImage(d) == s.Full())
  {
    if s.copyLost {
      if ts: nat :| Restoring(d, s, ts) {
        assert OriginalApart(d, s, ts);
      }
    }
  }

  /** Once published, and whenever the main file is not the damaged original, no log and no index stand beside it. */
  lemma PublishedStandsAlone(d: Dir, s: Story)
    requires Inv(d, s)
    requires Published(d, s) || (Db(MainFile) in d && d[Db(MainFile)] != s.main)
    ensures Published(d, s) && Db(MainFile) in d && Db(WalFile) !in d && Db(ShmFile) !in d
    ensures DbImage(d) == s.Full() && Sound(DbImage(d))
  {
  }

  /** The original's cell for a key: the log's where it has one, else the main file's. */
  function CellOf(s: Story, k: Key): Option<Cell>
    requires s.Proper()
  {
    if s.wal.Some? && k in s.wal.value.frames then Some(s.wal.value.frames[k])
    else if k in s.main.pages then Some(s.main.pages[k])
    else None
  }

  /** A finished recovery holds the rescue of main and log together, sound and under the current schema. */
  lemma RecoveredIsFullRescue(d: Dir, s: Story)
    requires Recovered(d, s)
    ensures Db(MainFile) in d && DbImage(d) == Rescue(Overlay(s.main, s.wal), s.lost)
    ensures forall k, v :: (k in DbImage(d).pages && DbImage(d).pages[k] == v) <==>
      v.Row? && k !in s.lost && CellOf(s, k) == Some(v)
    ensures Sound(DbImage(d)) && DbImage(d).version == 1
    ensures Marker !in d && TmpGone(d) && OriginalKept(d, s)
    ensures forall n :: n in s.older ==> n in d && d[n] == s.older[n]
  {
  }

  ghost predicate NewestEventIs(img: Image, id: RowId) {
    EventRow(id) in img.pages && forall i: RowId :: EventRow(i) in img.pages ==> i <= id
  }

  /** The newest event id is still the newest after recovery exactly if its row was readable and not withheld. */
  lemma NewestEventSurvivesIff(d: Dir, s: Story, id: RowId)
    requires Recovered(d, s) && NewestEventIs(Overlay(s.main, s.wal), id)
    ensures NewestEventIs(DbImage(d), id) <==>
      Overlay(s.main, s.wal).pages[EventRow(id)].Row? && EventRow(id) !in s.lost
    ensures forall i: RowId :: EventRow(i) in DbImage(d).pages ==> i <= id
  {
  }

  /**
   The purge of sessions takes session.db and its sidecars whether or not the
   marker stands. Under a killed rescue a complete copy is then left exactly if
   the rescue copy was finished or a backup is the original.
   */
  lemma PurgeUnderTheMarker(d: Dir, s: Story)
    requires Inv(d, s) && Rescuing(d, s)
    ensures var e := d - {Db(MainFile), Db(WalFile), Db(ShmFile)};
      WellTyped(e) && (CompleteCopyExists(e, s) <==> TmpHealthy(d) || exists ts: nat :: OriginalApart(e, s, ts))
  {
    var e := d - {Db(MainFile), Db(WalFile), Db(ShmFile)};
    assert TmpDone(e, s) <==> TmpDone(d, s);
    assert TmpDone(d, s) <==> TmpHealthy(d);
  }

  /** Where a first run may find the directory: damaged, no marker, no copy. */
  lemma StartSatisfiesInv(d: Dir, s: Story)
    requires s.Proper() && WellTyped(d) && OriginalInPlace(d, s) && TmpGone(d) && Marker !in d
    requires forall n :: n in s.older ==> Lookup(d, n) == Some(s.older[n])
    ensures Inv(d, s)
  {
  }

  // ------------------------------------------------------------------
  // Steps that keep it
  // ------------------------------------------------------------------

  /** Nothing but the copy differs. */
  ghost predicate SameButCopy(d: Dir, e: Dir) {
    forall n: Name :: !n.Tmp? ==> Lookup(e, n) == Lookup(d, n)
  }

  lemma CopyKeepsTheRest(d: Dir, e: Dir)
    requires SameButCopy(d, e)
    ensures Backups(d) == Backups(e) && (Marker in d <==> Marker in e)
  {
    assert Lookup(e, Marker) == Lookup(d, Marker);
    forall n: Name | n.Bak?
      ensures n in d <==> n in e
    {
      assert Lookup(e, n) == Lookup(d, n);
    }
  }

  /** While the original is whole, anything may happen to the copy that does not make it look finished early. */
  lemma CopyMayChange(d: Dir, e: Dir, s: Story)
    requires Inv(d, s) && Rescuing(d, s)
    requires WellTyped(e) && SameButCopy(d, e)
    requires TmpHealthy(e) ==> TmpDone(e, s)
    ensures Inv(e, s) && Rescuing(e, s)
  {
  }

  lemma MarkerMayAppear(d: Dir, s: Story)
    requires Inv(d, s) && Rescuing(d, s)
    ensures Inv(d[Marker := Sentinel], s) && Rescuing(d[Marker := Sentinel], s)
  {
  }

  /** A sidecar of the original may go once the copy is complete. */
  lemma SidecarMayMove(d: Dir, s: Story, part: Part, ts: nat)
    requires Inv(d, s) && BackingUp(d, s) && part != MainFile && Db(part) in d && Bak(ts, part) !in d
    ensures var e := Moved(d, Db(part), Bak(ts, part));
      Inv(e, s) && BackingUp(e, s)
  {
    hide Rescuing, Unpublished, Published, Restoring;
    MovedToBackup(d, part, ts);
    hide Moved, WellTyped;
    var e := Moved(d, Db(part), Bak(ts, part));
    assert forall n :: n in s.older ==> n.Bak? && Lookup(e, n) == Lookup(d, n);
    assert Lookup(e, Marker) == Lookup(d, Marker) && Lookup(e, Db(MainFile)) == Lookup(d, Db(MainFile));
    assert forall p: Part :: Lookup(e, Tmp(p)) == Lookup(d, Tmp(p));
  }

  lemma MovedToBackup(d: Dir, part: Part, ts: nat)
    requires WellTyped(d) && Db(part) in d
    ensures var e := Moved(d, Db(part), Bak(ts, part));
      && WellTyped(e) && Lookup(e, Db(part)) == None && Lookup(e, Bak(ts, part)) == Some(d[Db(part)])
      && forall n :: n != Db(part) && n != Bak(ts, part) ==> Lookup(e, n) == Lookup(d, n)
  {
  }

  lemma MainMayMove(d: Dir, s: Story, ts: nat)
    requires Inv(d, s) && BackingUp(d, s) && Db(WalFile) !in d && Db(ShmFile) !in d && Bak(ts, MainFile) !in d
    ensures var e := Moved(d, Db(MainFile), Bak(ts, MainFile));
      Inv(e, s) && Unpublished(e, s)
  {
    hide Rescuing, Published, Restoring;
    var e := Moved(d, Db(MainFile), Bak(ts, MainFile));
    assert Lookup(e, Bak(ts, MainFile)) == Some(s.main);
  }

  lemma CopyMayBePublished(d: Dir, s: Story)
    requires Inv(d, s) && Unpublished(d, s)
    ensures var e := Moved(d, Tmp(MainFile), Db(MainFile));
      Inv(e, s) && Published(e, s)
  {
    hide Rescuing, BackingUp, Restoring;
    var e := Moved(d, Tmp(MainFile), Db(MainFile));
    var ts :| Lookup(d, Bak(ts, MainFile)) == Some(s.main);
    assert Lookup(e, Bak(ts, MainFile)) == Some(s.main);
  }

  /** A backup sidecar without its main file is not part of any complete family. */
  lemma OrphanMayGo(d: Dir, s: Story, ts: nat, part: Part)
    requires Inv(d, s) && Published(d, s) && part != MainFile && Bak(ts, MainFile) !in d
    ensures var e := d - {Bak(ts, part)};
      Inv(e, s) && Published(e, s)
  {
    hide Rescuing, BackingUp, Unpublished, Restoring;
    var e := d - {Bak(ts, part)};
    var t :| Lookup(d, Bak(t, MainFile)) == Some(s.main);
    assert Lookup(e, Bak(t, MainFile)) == Some(s.main);
  }

  lemma MarkerMayGo(d: Dir, s: Story)
    requires Inv(d, s) && Published(d, s)
    ensures Recovered(d - {Marker}, s)
  {
    hide Rescuing, BackingUp, Unpublished, Restoring;
    var e := d - {Marker};
    var t :| Lookup(d, Bak(t, MainFile)) == Some(s.main);
    assert Lookup(e, Bak(t, MainFile)) == Some(s.main);
  }

  /** No other phase looks like that one. */
  lemma RestoringNeedsALoss(d: Dir, s: Story, ts: nat)
    requires Inv(d, s) && Restoring(d, s, ts)
    ensures s.copyLost
  {
  }

  /** Restoring the log before the main file keeps the family recognisable at every step. */
  lemma SidecarMayReturn(d: Dir, s: Story, ts: nat, part: Part)
    requires Inv(d, s) && Restoring(d, s, ts) && part != MainFile && Bak(ts, part) in d
    ensures var e := Moved(d, Bak(ts, part), Db(part));
      Inv(e, s) && Restoring(e, s, ts)
  {
    RestoringNeedsALoss(d, s, ts);
    hide Rescuing, BackingUp, Unpublished, Published;
    var e := Moved(d, Bak(ts, part), Db(part));
    assert forall t: nat :: Bak(t, MainFile) in e <==> Bak(t, MainFile) in d;
    assert IsLatest(e, ts);
    assert Restoring(e, s, ts);
  }

  lemma MainMayReturn(d: Dir, s: Story, ts: nat)
    requires Inv(d, s) && Restoring(d, s, ts) && Bak(ts, WalFile) !in d
    ensures var e := Moved(d, Bak(ts, MainFile), Db(MainFile));
      Inv(e, s) && Rescuing(e, s) && Marker in e
  {
    hide BackingUp, Unpublished, Published;
  }

  /**
   If the copy disappeared after the original had been moved (no run removes it
   there), restoring the newest backup would bring back its main file with the
   log of its own family, and so the whole original exactly if that is its log.
   */
  lemma RestoreBringsBack(d: Dir, s: Story, ts: nat)
    requires Inv(d, s) && Unpublished(d, s) && IsLatest(d, ts) && d[Bak(ts, MainFile)] == s.main
    ensures var e := Restored(d - {Tmp(MainFile)}, ts);
      && WellTyped(e) && Db(MainFile) in e
      && DbImage(e) == Overlay(s.main, Lookup(d, Bak(ts, WalFile)))
      && (OriginalInPlace(e, s) <==> Lookup(d, Bak(ts, WalFile)) == s.wal)
  {
  }

  /** So the guarantees survive the loss of the copy exactly if restoring the newest backup brings back the original. */
  lemma LostCopyIsRestorable(d: Dir, s: Story, ts: nat)
    requires Inv(d, s) && Unpublished(d, s) && IsLatest(d, ts) && Bak(ts, MainFile) !in s.older
    ensures var e := d - {Tmp(MainFile)};
      Inv(e, s.(copyLost := true)) <==> OriginalInPlace(Restored(e, ts), s)
  {
    var e := d - {Tmp(MainFile)};
    assert forall t: nat :: Bak(t, MainFile) in e <==> Bak(t, MainFile) in d;
    assert IsLatest(e, ts);
    RestoredPlaces(e, ts);
    var l := s.(copyLost := true);
    if OriginalInPlace(Restored(e, ts), s) {
      assert Restoring(e, l, ts);
    }
  }

  lemma RestoredPlaces(d: Dir, ts: nat)
    requires Db(MainFile) !in d && Db(WalFile) !in d && Bak(ts, MainFile) in d
    ensures Lookup(Restored(d, ts), Db(MainFile)) == Lookup(d, Bak(ts, MainFile))
    ensures Lookup(Restored(d, ts), Db(WalFile)) == Lookup(d, Bak(ts, WalFile))
  {
  }

  /**
   Whatever the newest backup family holds, the run that restores it recovers
   that: with no log in the family, the main file alone takes the place of the
   original.
   */
  lemma AnyBackupCanBeRestored(d: Dir, ts: nat, lost: set<Key>)
    requires WellTyped(d) && Marker in d && !TmpHealthy(d) && Db(MainFile) !in d && Db(WalFile) !in d
    requires IsLatest(d, ts) && !Sound(Overlay(d[Bak(ts, MainFile)], Lookup(d, Bak(ts, WalFile))))
    ensures var s := Story(d[Bak(ts, MainFile)], Lookup(d, Bak(ts, WalFile)), map[], lost, true);
      Inv(d, s) && Restoring(d, s, ts)
  {
    var s := Story(d[Bak(ts, MainFile)], Lookup(d, Bak(ts, WalFile)), map[], lost, true);
    assert Restoring(d, s, ts);
  }

  /** A damaged main file, a log with one more row, and the finished copy. */
  function SplitStory(): Story {
    var damage: Pages := map[EventRow(1) := Damaged];
    Story(Main(damage, 1), Some(Wal(map[EventRow(2) := Row(7)], None)), map[], {}, false)
  }

  lemma SplitStoryIsProper()
    ensures SplitStory().Proper() && SplitStory().Full() == Image(map[EventRow(2) := Row(7)], SCHEMA_VERSION)
  {
    var s := SplitStory();
    assert EventRow(1) in Overlay(s.main, s.wal).pages;
  }

  function BeforeSplit(): Dir {
    map[Marker := Sentinel,
        Tmp(MainFile) := Main(map[EventRow(2) := Row(7)], SCHEMA_VERSION),
        Db(MainFile) := SplitStory().main,
        Db(WalFile) := SplitStory().wal.value]
  }

  function AfterSplit(): Dir {
    map[Marker := Sentinel,
        Tmp(MainFile) := Main(map[EventRow(2) := Row(7)], SCHEMA_VERSION),
        Bak(1, WalFile) := SplitStory().wal.value,
        Bak(2, MainFile) := SplitStory().main]
  }

  lemma BeforeSplitIsBackingUp()
    ensures SplitStory().Proper() && Inv(BeforeSplit(), SplitStory()) && BackingUp(BeforeSplit(), SplitStory())
  {
    SplitStoryIsProper();
  }

  /**
   The log and the main file under different timestamps: the copy has the log's
   row, and what a restore would bring back has not.
   */
  lemma SplitBackupNeedsTheCopy()
    ensures SplitStory().Proper()
    ensures var d := AfterSplit();
      var s := SplitStory();
      var e := Restored(d - {Tmp(MainFile)}, 2);
      && Inv(d, s) && Unpublished(d, s) && IsLatest(d, 2) && d[Bak(2, MainFile)] == s.main
      && WellTyped(e) && Db(MainFile) in e
      && EventRow(2) in s.Full().pages && EventRow(2) !in DbImage(e).pages
  {
    SplitStoryIsProper();
    AfterSplitIsUnpublished();
    hide Inv, Unpublished, Restored, DbImage, WellTyped;
    RestoreBringsBack(AfterSplit(), SplitStory(), 2);
  }

  lemma AfterSplitIsUnpublished()
    ensures SplitStory().Proper() && Inv(AfterSplit(), SplitStory()) && Unpublished(AfterSplit(), SplitStory())
  {
    hide Rescuing, BackingUp, Published, Restoring;
    SplitStoryIsProper();
    assert Lookup(AfterSplit(), Bak(2, MainFile)) == Some(SplitStory().main);
  }

  function BetweenKills(): Dir {
    map[Marker := Sentinel,
        Tmp(MainFile) := Main(map[EventRow(2) := Row(7)], SCHEMA_VERSION),
        Db(MainFile) := SplitStory().main,
        Bak(1, WalFile) := SplitStory().wal.value]
  }

  lemma FirstKill()
    ensures KilledInBackup(BeforeSplit(), 1) && FreshStamp(BeforeSplit(), 1)
    ensures KilledAt(BeforeSplit(), 1, 1) == BetweenKills() && Backups(BeforeSplit()) == {}
  {
  }

  lemma SecondKill()
    ensures KilledInBackup(BetweenKills(), 1)
    ensures KilledAt(BetweenKills(), 2, 1) == AfterSplit()
  {
  }

  /** Two runs of recover do that: the first is killed after it has moved the log, the second after the main file. */
  method TwoKillsSplitTheBackup() returns (disk: Disk, outcomes: seq<Outcome>)
    ensures fresh(disk) && disk.Valid() && disk.story == SplitStory()
    ensures disk.trail[0] == BeforeSplit() && disk.files == AfterSplit() && outcomes == [Killed, Killed]
  {
    BeforeSplitIsBackingUp();
    FirstKill();
    SecondKill();
    hide SplitStory, BeforeSplit, BetweenKills, AfterSplit, Inv, BackingUp, WellTyped, TmpHealthy;
    hide KilledInBackup, KilledAt, FreshStamp, Backups, Recovered;
    disk := new Disk(BeforeSplit(), SplitStory().lost, SplitStory());
    ghost var left;
    outcomes, left := disk.RecoverRepeatedly([1, 1], [1, 2]);
    assert left[1] == BetweenKills();
    assert left[2] == AfterSplit();
  }

  function JustPublished(): Dir {
    map[Marker := Sentinel,
        Db(MainFile) := Main(map[EventRow(2) := Row(7)], SCHEMA_VERSION),
        Bak(2, MainFile) := SplitStory().main,
        Bak(1, WalFile) := SplitStory().wal.value]
  }

  lemma KillBeforeSweep()
    ensures KilledInBackup(BetweenKills(), 2)
    ensures KilledAt(BetweenKills(), 2, 2) == JustPublished()
  {
  }

  lemma JustPublishedIsPublished()
    ensures SplitStory().Proper() && OnlyMarkerLeft(JustPublished(), SplitStory())
  {
    SplitStoryIsProper();
    assert Lookup(JustPublished(), Bak(2, MainFile)) == Some(SplitStory().main);
  }

  /**
   The sweep is not made up for: a first run is killed after it has moved the
   log, a second one after it has published, and the third one only removes the
   marker, and so leaves the log of the first without its main file for good.
   */
  method OrphansOutliveAKill() returns (disk: Disk, outcomes: seq<Outcome>)
    ensures fresh(disk) && disk.Valid() && disk.story == SplitStory()
    ensures disk.trail[0] == BeforeSplit() && outcomes == [Killed, Killed, MarkerOnly]
    ensures disk.files == JustPublished() - {Marker}
    ensures Bak(1, WalFile) in disk.files && Bak(1, MainFile) !in disk.files
  {
    BeforeSplitIsBackingUp();
    FirstKill();
    KillBeforeSweep();
    JustPublishedIsPublished();
    assert Bak(1, WalFile) in JustPublished() && Bak(1, MainFile) !in JustPublished();
    hide *;
    disk := new Disk(BeforeSplit(), SplitStory().lost, SplitStory());
    ghost var left;
    var kills, stamps := [1, 2, 1], [1, 2, 3];
    outcomes, left := disk.RecoverRepeatedly(kills, stamps);
    assert RunIs(left[0], left[1], SplitStory(), outcomes[0], stamps[0], kills[0]);
    assert RunIs(left[1], left[2], SplitStory(), outcomes[1], stamps[1], kills[1]);
    assert RunIs(left[2], left[3], SplitStory(), outcomes[2], stamps[2], kills[2]);
    AreKnown(left, outcomes);
  }

  lemma AreKnown(left: seq<Dir>, outcomes: seq<Outcome>)
    requires SplitStory().Proper() && |left| == 4 && |outcomes| == 3 && left[0] == BeforeSplit()
    requires RunIs(left[0], left[1], SplitStory(), outcomes[0], 1, 1)
    requires RunIs(left[1], left[2], SplitStory(), outcomes[1], 2, 2)
    requires RunIs(left[2], left[3], SplitStory(), outcomes[2], 3, 1)
    ensures outcomes == [Killed, Killed, MarkerOnly] && left[3] == JustPublished() - {Marker}
  {
    FirstKill();
    KillBeforeSweep();
    JustPublishedIsPublished();
    hide SplitStory, BeforeSplit, BetweenKills, JustPublished, KilledInBackup, KilledAt, OnlyMarkerLeft, Backups, FreshStamp;
  }

  // ------------------------------------------------------------------
  // The disk, one step at a time
  // ------------------------------------------------------------------

  function Moved(d: Dir, from: Name, to: Name): Dir
    requires from in d
  {
    (d - {from})[to := d[from]]
  }

  function MovedIf(d: Dir, from: Name, to: Name): Dir {
    if from in d then Moved(d, from, to) else d
  }

  /** The original family under a timestamp. */
  function BackedUp(d: Dir, ts: nat): Dir {
    MovedIf(MovedIf(MovedIf(d, Db(ShmFile), Bak(ts, ShmFile)), Db(WalFile), Bak(ts, WalFile)), Db(MainFile), Bak(ts, MainFile))
  }

  /** The backup killed after so many steps, before it was done. */
  function StoppedBackup(d: Dir, ts: nat, fuel: nat): Dir {
    if Db(ShmFile) !in d then StoppedAtLog(d, ts, fuel)
    else if fuel == 0 then d
    else StoppedAtLog(Moved(d, Db(ShmFile), Bak(ts, ShmFile)), ts, fuel - 1)
  }

  /** A run that finds the copy finished and the original in place, and is killed no later than right after it has published. */
  ghost predicate KilledInBackup(d: Dir, fuel: nat) {
    Marker in d && TmpHealthy(d) && Db(MainFile) in d && fuel <= BackupSteps(d) + 1
  }

  /** What it leaves. */
  function KilledAt(d: Dir, ts: nat, fuel: nat): Dir {
    if fuel < BackupSteps(d) then StoppedBackup(d, ts, fuel)
    else if fuel == BackupSteps(d) then BackedUp(d, ts)
    else MovedIf(BackedUp(d, ts), Tmp(MainFile), Db(MainFile))
  }

  /** Nothing but the removal of the marker is left to do. */
  ghost predicate OnlyMarkerLeft(d: Dir, s: Story)
    requires s.Proper()
  {
    Published(d, s) && Marker in d
  }

  /** What one run leaves where that does not depend on what SQLite does. */
  ghost predicate RunIs(d: Dir, e: Dir, s: Story, outcome: Outcome, ts: nat, fuel: nat)
    requires s.Proper()
  {
    && (KilledInBackup(d, fuel) ==> outcome == Killed && e == KilledAt(d, ts, fuel))
    && (OnlyMarkerLeft(d, s) && fuel > 0 ==> outcome == MarkerOnly && e == d - {Marker})
  }

  lemma RunsThatAreKnown(d: Dir, s: Story, fuel: nat)
    requires s.Proper()
    ensures KilledInBackup(d, fuel) ==> Marker in d && TmpHealthy(d)
    ensures OnlyMarkerLeft(d, s) ==> Published(d, s) && Marker in d && !TmpHealthy(d)
  {
  }

  lemma MarkerIsNoBackup(d: Dir)
    ensures forall e, ts :: BackupsAfter(d[Marker := Sentinel], e, ts) ==> BackupsAfter(d, e, ts)
  {
  }

  /** The file is under the timestamp and no longer in place, or the other way round. */
  ghost predicate IsMoved(d: Dir, e: Dir, ts: nat, part: Part, moved: bool) {
    if moved then Lookup(e, Bak(ts, part)) == Lookup(d, Db(part)) && Db(part) !in e
    else Lookup(e, Db(part)) == Lookup(d, Db(part)) && Bak(ts, part) !in e
  }

  /** Each step moves one file: the index if there is one, then the log, then the main file. */
  lemma KilledAtIs(d: Dir, ts: nat, fuel: nat)
    requires KilledInBackup(d, fuel) && fuel <= BackupSteps(d) && FreshStamp(d, ts)
    ensures var e := KilledAt(d, ts, fuel);
      var log := if Db(ShmFile) in d then 2 else 1;
      var main := if Db(WalFile) in d then log + 1 else log;
      && IsMoved(d, e, ts, ShmFile, fuel >= 1 || Db(ShmFile) !in d)
      && IsMoved(d, e, ts, WalFile, fuel >= log || Db(WalFile) !in d)
      && IsMoved(d, e, ts, MainFile, fuel >= main)
      && (forall n: Name :: !n.Db? && !(n.Bak? && n.ts == ts) ==> Lookup(e, n) == Lookup(d, n))
  {
    forall p: Part
      ensures Bak(ts, p) !in d
    {
      assert Bak(ts, p) in d ==> Bak(ts, p) in Backups(d);
    }
  }

  /** The files of the original family. */
  function BackupSteps(d: Dir): nat {
    (if Db(ShmFile) in d then 1 else 0) + (if Db(WalFile) in d then 1 else 0) + (if Db(MainFile) in d then 1 else 0)
  }

  function StoppedAtLog(d: Dir, ts: nat, fuel: nat): Dir {
    if fuel == 0 then d else MovedIf(d, Db(WalFile), Bak(ts, WalFile))
  }

  /** A backup family back in place. */
  function Restored(d: Dir, ts: nat): Dir {
    MovedIf(MovedIf(MovedIf(d, Bak(ts, WalFile), Db(WalFile)), Bak(ts, ShmFile), Db(ShmFile)), Bak(ts, MainFile), Db(MainFile))
  }

  /** The family is back in place of whatever was there, and everything else is as it was. */
  ghost predicate FamilyReturned(d: Dir, e: Dir, ts: nat) {
    && (forall p: Part :: Bak(ts, p) !in e)
    && (forall p: Part :: Lookup(e, Db(p)) == if Bak(ts, p) in d then Lookup(d, Bak(ts, p)) else Lookup(d, Db(p)))
    && (forall n: Name :: !n.Db? && !(n.Bak? && n.ts == ts) ==> Lookup(e, n) == Lookup(d, n))
  }

  lemma RestoreReturnsFamily(d: Dir, ts: nat)
    ensures FamilyReturned(d, Restored(d, ts), ts)
  {
    forall p: Part
      ensures Bak(ts, p) !in Restored(d, ts)
      ensures Lookup(Restored(d, ts), Db(p)) == if Bak(ts, p) in d then Lookup(d, Bak(ts, p)) else Lookup(d, Db(p))
    {
      match p
      case MainFile =>
      case WalFile =>
      case ShmFile =>
    }
  }

  /** The copy published over a backed-up original. */
  function PublishedOver(d: Dir): Dir {
    Swept(MovedIf(d, Tmp(MainFile), Db(MainFile))) - {Marker}
  }

  /** The backup family of this timestamp is the original with its log. */
  ghost predicate FamilyKept(d: Dir, s: Story, ts: nat) {
    Lookup(d, Bak(ts, MainFile)) == Some(s.main) && Lookup(d, Bak(ts, WalFile)) == s.wal
  }

  lemma PublishingKeepsFamily(d: Dir, s: Story, ts: nat)
    requires s.Proper() && Rescuing(d, s) && FreshStamp(d, ts)
    ensures FamilyKept(PublishedOver(BackedUp(d, ts)), s, ts) && BackupsAfter(d, PublishedOver(BackedUp(d, ts)), ts)
  {
    FreshFamily(d, ts);
    BackupIs(d, ts);
    hide BackedUp;
    var b := BackedUp(d, ts);
    var e := MovedIf(b, Tmp(MainFile), Db(MainFile));
    assert forall t: nat, p: Part :: Lookup(e, Bak(t, p)) == Lookup(b, Bak(t, p));
    hide MovedIf;
    SweepTakes(e);
    hide Swept;
    assert forall t: nat, p: Part :: Lookup(PublishedOver(b), Bak(t, p)) == Lookup(Swept(e), Bak(t, p));
  }

  lemma FreshFamily(d: Dir, ts: nat)
    requires FreshStamp(d, ts)
    ensures forall p: Part :: Bak(ts, p) !in d
  {
    forall p: Part
      ensures Bak(ts, p) !in d
    {
      assert Bak(ts, p) in d ==> Bak(ts, p) in Backups(d);
    }
  }

  /** The backup moves exactly the files of the original family. */
  lemma BackupIs(d: Dir, ts: nat)
    requires forall p: Part :: Bak(ts, p) !in d
    ensures forall p: Part :: Lookup(BackedUp(d, ts), Bak(ts, p)) == Lookup(d, Db(p))
    ensures forall t: nat, p: Part :: t != ts ==> Lookup(BackedUp(d, ts), Bak(t, p)) == Lookup(d, Bak(t, p))
  {
    forall p: Part
      ensures Lookup(BackedUp(d, ts), Bak(ts, p)) == Lookup(d, Db(p))
    {
      match p
      case MainFile =>
      case WalFile =>
      case ShmFile =>
    }
  }

  /** The copy has its main file, its log and its index: a connection holds it open. */
  predicate TmpOpen(d: Dir) {
    Tmp(WalFile) in d && Tmp(ShmFile) in d && Tmp(MainFile) in d
  }

  function TmpImage(d: Dir): Image
    requires WellTyped(d) && TmpOpen(d)
  {
    Overlay(d[Tmp(MainFile)], Some(d[Tmp(WalFile)]))
  }

  ghost predicate FreshStamp(d: Dir, ts: nat) {
    forall n :: n in Backups(d) ==> n.ts != ts
  }

  /** The files of all backup families. */
  function Backups(d: Dir): (r: set<Name>)
    ensures forall n :: n in d && n.Bak? ==> n in r
  {
    set n | n in d && n.Bak?
  }

  /** Backup files that were not there before carry the new timestamp. */
  ghost predicate BackupsFrom(d: Dir, e: Dir, ts: nat) {
    forall n :: n in Backups(e) ==> n in Backups(d) || n.ts == ts
  }

  lemma AtMostThreeMore(d: Dir, e: Dir, ts: nat)
    requires BackupsFrom(d, e, ts)
    ensures |Backups(e)| <= |Backups(d)| + 3
  {
    var family := {Bak(ts, MainFile), Bak(ts, WalFile), Bak(ts, ShmFile)};
    forall n | n in Backups(e)
      ensures n in Backups(d) + family
    {
      match n.part
      case MainFile =>
      case WalFile =>
      case ShmFile =>
    }
    SubsetIsSmaller(Backups(e), Backups(d) + family);
  }

  lemma {:induction false} SubsetIsSmaller(a: set<Name>, b: set<Name>)
    requires a <= b
    ensures |a| <= |b|
  {
    if a != {} {
      var n :| n in a;
      SubsetIsSmaller(a - {n}, b - {n});
    }
  }

  /** Sidecars of backup families that have no main file. */
  function Orphans(d: Dir): set<Name> {
    set n | n in d && n.Bak? && Bak(n.ts, MainFile) !in d
  }

  function Swept(d: Dir): Dir {
    d - Orphans(d)
  }

  lemma OrphansAreBackups(d: Dir)
    ensures |Orphans(d)| <= |Backups(d)|
    ensures Orphans(Swept(d)) == {}
    ensures forall n :: n in Orphans(d) ==> n.part != MainFile
  {
    SubsetIsSmaller(Orphans(d), Backups(d));
  }

  /** A file goes exactly if it is in a backup family whose main file is missing. */
  lemma SweepTakes(d: Dir)
    ensures forall n: Name ::
      Lookup(Swept(d), n) == if n.Bak? && Bak(n.ts, MainFile) !in d then None else Lookup(d, n)
  {
  }

  /**
   The backups of the finished directory: the original family, file by file,
   under the new timestamp, and of the others exactly those with a main file.
   */
  ghost predicate BackupsAfter(d: Dir, e: Dir, ts: nat) {
    && (forall p: Part :: Lookup(e, Bak(ts, p)) == Lookup(d, Db(p)))
    && (forall t: nat, p: Part :: t != ts ==>
          Lookup(e, Bak(t, p)) == if Bak(t, MainFile) in d then Lookup(d, Bak(t, p)) else None)
  }

  lemma NothingSwept(d: Dir)
    ensures forall some: set<Name> :: d - (some - some) == d
  {
  }

  lemma OneOrphanLess(d: Dir, start: set<Name>, todo: set<Name>, n: Name)
    requires start == Orphans(d) && todo <= start && n in todo
    ensures var e := d - (start - todo);
      && n in e && n == Bak(n.ts, n.part) && n.part != MainFile && Bak(n.ts, MainFile) !in e
      && e - {n} == d - (start - (todo - {n}))
  {
    assert start - (todo - {n}) == (start - todo) + {n};
  }

  lemma SweepKeepsTheRest(d: Dir, gone: set<Name>)
    requires gone <= Orphans(d)
    ensures Backups(d - gone) <= Backups(d) && (Marker in d - gone <==> Marker in d)
    ensures d - Orphans(d) == Swept(d)
  {
  }

  /** Without the marker the original is whole or the recovery is finished, and the probe tells which. */
  lemma UnmarkedPhases(d: Dir, s: Story)
    requires Inv(d, s) && Marker !in d
    ensures Db(MainFile) in d
    ensures if Sound(DbImage(d)) then Recovered(d, s) && !Rescuing(d, s) else Rescuing(d, s) && !Recovered(d, s)
  {
  }

  /** With the marker and no finished copy, the run publishes nothing until it has copied again. */
  lemma MarkedPhases(d: Dir, s: Story)
    requires Inv(d, s) && Marker in d && !TmpHealthy(d)
    ensures Published(d, s) <==> Db(MainFile) in d && Sound(DbImage(d))
    ensures Db(MainFile) in d && !Sound(DbImage(d)) <==> Rescuing(d, s)
    ensures Db(MainFile) !in d <==> exists ts: nat :: Restoring(d, s, ts)
    ensures Published(d, s) ==> exists t: nat :: Bak(t, MainFile) in d
  {
  }

  /** With the marker and a finished copy, the copy is the full rescue. */
  lemma HealthyPhases(d: Dir, s: Story)
    requires Inv(d, s) && Marker in d && TmpHealthy(d)
    ensures d[Tmp(MainFile)] == s.FullMain()
    ensures if Db(MainFile) in d then BackingUp(d, s) else Unpublished(d, s)
  {
  }

  datatype Outcome = NoOp | MarkerOnly | Done(rows: nat) | Killed

  function PublishCost(d: Dir): nat {
    8 + |Backups(d)|
  }

  /** The copy after its last connection has closed. */
  function Closed(d: Dir): Dir
    requires WellTyped(d) && TmpOpen(d)
  {
    d[Tmp(MainFile) := Main(TmpImage(d).pages, TmpImage(d).version)] - {Tmp(WalFile), Tmp(ShmFile)}
  }

  /** The open copy holds the full rescue but for the rows that are left to copy. */
  ghost predicate CopyLacks(d: Dir, s: Story, left: set<Key>)
    requires s.Proper()
  {
    && WellTyped(d) && TmpOpen(d) && left <= s.Full().pages.Keys
    && TmpImage(d) == Image(s.Full().pages - left, SCHEMA_VERSION)
  }

  lemma CopyIsOpen(d: Dir, s: Story, left: set<Key>)
    requires s.Proper() && CopyLacks(d, s, left)
    ensures TmpOpen(d)
  {
  }

  lemma OneRowLess(full: Pages, left: set<Key>, k: Key)
    requires k in left && left <= full.Keys
    ensures (full - left)[k := full[k]] == full - (left - {k})
  {
  }

  /** The rows that are copied, and the two tables they are copied to. */
  function Readable(img: Image, lost: set<Key>): set<Key> {
    set k | k in img.pages && img.pages[k].Row? && k !in lost
  }

  function SessionsOf(ks: set<Key>): set<Key> {
    set k | k in ks && k.SessionRow?
  }

  function EventsOf(ks: set<Key>): set<Key> {
    set k | k in ks && k.EventRow?
  }

  lemma NothingCopiedYet(d: Dir, s: Story)
    requires s.Proper() && WellTyped(d) && TmpOpen(d) && TmpImage(d) == Image(map[], SCHEMA_VERSION)
    ensures var ks := Readable(Overlay(s.main, s.wal), s.lost);
      && SessionsOf(ks) !! EventsOf(ks) && CopyLacks(d, s, SessionsOf(ks) + EventsOf(ks))
      && |s.Full().pages| == |SessionsOf(ks)| + |EventsOf(ks)|
  {
    ReadableRows(s);
    var ks := Readable(Overlay(s.main, s.wal), s.lost);
    assert s.Full().pages.Keys == ks;
    assert ks == SessionsOf(ks) + EventsOf(ks);
    assert s.Full().pages - ks == map[];
    assert |s.Full().pages.Keys| == |s.Full().pages|;
  }

  lemma EverythingCopied(d: Dir, s: Story)
    requires s.Proper() && CopyLacks(d, s, {})
    ensures TmpOpen(d) && TmpImage(d) == s.Full()
  {
    assert s.Full().pages - {} == s.Full().pages;
  }

  lemma SameAgain(d: Dir)
    ensures SameButCopy(d, d)
  {
  }

  lemma SameThrough(d: Dir, e: Dir, f: Dir)
    requires SameButCopy(d, e) && SameButCopy(e, f)
    ensures SameButCopy(d, f)
  {
  }

  /**
   A kill leaves the sidecars of an unfinished copy. An error return closes it:
   it then passes for finished, and the guarantees hold exactly if the error
   came when no row of either table was left to copy.
   */
  lemma ClosingEarlyLooksFinished(d: Dir, s: Story, left: set<Key>)
    requires Inv(d, s) && Rescuing(d, s) && CopyLacks(d, s, left)
    ensures TmpHealthy(Closed(d))
    ensures Inv(Closed(d), s) <==> left == {}
  {
    hide BackingUp, Unpublished, Published, Restoring, Recovered;
    ClosedIsTheCopy(d, s, left);
    var e := Closed(d);
    assert TmpDone(e, s) <==> left == {} by {
      assert s.Full().pages - {} == s.Full().pages;
      assert s.Full().pages - left == s.Full().pages ==> left == {};
    }
    if Inv(e, s) {
      HealthyCopyIsDone(e, s);
    }
    if left == {} {
      CopyMayChange(d, e, s);
    }
  }

  /** Before the schema is in the copy, closing it does no harm: it does not pass for finished. */
  lemma ClosingBeforeSchemaIsHarmless(d: Dir, s: Story)
    requires Inv(d, s) && Rescuing(d, s) && TmpOpen(d) && TmpImage(d).version != SCHEMA_VERSION
    ensures !TmpHealthy(Closed(d)) && Inv(Closed(d), s) && Rescuing(Closed(d), s)
  {
    CopyMayChange(d, Closed(d), s);
  }

  /** And the next run, which trusts the copy, publishes it as it is: every row that was left is missing. */
  lemma ClosedEarlyIsPublished(d: Dir, s: Story, left: set<Key>, ts: nat)
    requires Inv(d, s) && Rescuing(d, s) && CopyLacks(d, s, left) && FreshStamp(d, ts)
    ensures var e := PublishedOver(BackedUp(Closed(d), ts));
      && WellTyped(e) && Db(MainFile) in e && Marker !in e
      && DbImage(e) == Image(s.Full().pages - left, SCHEMA_VERSION)
  {
    ClosedIsTheCopy(d, s, left);
    hide *;
    CopyIsPublished(Closed(d), ts);
  }

  lemma ClosedIsTheCopy(d: Dir, s: Story, left: set<Key>)
    requires s.Proper() && CopyLacks(d, s, left)
    ensures WellTyped(Closed(d)) && Lookup(Closed(d), Tmp(MainFile)) == Some(Main(s.Full().pages - left, SCHEMA_VERSION))
  {
  }

  /** Publishing over any directory leaves exactly the copy as session.db. */
  lemma CopyIsPublished(d: Dir, ts: nat)
    requires WellTyped(d) && Tmp(MainFile) in d
    ensures var e := PublishedOver(BackedUp(d, ts));
      && WellTyped(e) && Db(MainFile) in e && Marker !in e
      && DbImage(e) == Overlay(d[Tmp(MainFile)], None)
  {
    BackupMovesTheDb(d, ts);
    hide BackedUp;
    var b := BackedUp(d, ts);
    assert Lookup(b, Tmp(MainFile)) == Lookup(d, Tmp(MainFile));
    assert Lookup(PublishedOver(b), Db(MainFile)) == Lookup(d, Tmp(MainFile));
  }

  lemma BackupMovesTheDb(d: Dir, ts: nat)
    requires WellTyped(d)
    ensures var b := BackedUp(d, ts);
      && WellTyped(b) && (forall p: Part :: Db(p) !in b) && forall p: Part :: Lookup(b, Tmp(p)) == Lookup(d, Tmp(p))
  {
    MovePart(d, ShmFile, ts);
    var d1 := MovedIf(d, Db(ShmFile), Bak(ts, ShmFile));
    MovePart(d1, WalFile, ts);
    var d2 := MovedIf(d1, Db(WalFile), Bak(ts, WalFile));
    MovePart(d2, MainFile, ts);
    forall p: Part
      ensures Db(p) !in BackedUp(d, ts)
    {
      match p
      case MainFile =>
      case WalFile =>
      case ShmFile =>
    }
  }

  lemma MovePart(d: Dir, part: Part, ts: nat)
    requires WellTyped(d)
    ensures var e := MovedIf(d, Db(part), Bak(ts, part));
      && WellTyped(e) && Db(part) !in e && (forall p: Part :: Db(p) in e ==> Db(p) in d)
      && forall p: Part :: Lookup(e, Tmp(p)) == Lookup(d, Tmp(p))
  {
  }

  /** An error before the first event: the row of the log is readable, and the published file is empty. */
  lemma UnfinishedCopyIsPublished()
    ensures var d := NothingCopied();
      var s := SplitStory();
      && s.Proper() && Inv(d, s) && Rescuing(d, s) && Marker in d
      && WellTyped(d) && TmpOpen(d) && TmpHealthy(Closed(d)) && !Inv(Closed(d), s)
    ensures var s := SplitStory();
      var e := PublishedOver(BackedUp(Closed(NothingCopied()), 1));
      EventRow(2) in s.Full().pages && WellTyped(e) && Db(MainFile) in e && DbImage(e).pages == map[]
  {
    hide *;
    NothingCopiedIsRescuing();
    ClosingEarlyLooksFinished(NothingCopied(), SplitStory(), {EventRow(2)});
    ClosedEarlyIsPublished(NothingCopied(), SplitStory(), {EventRow(2)}, 1);
  }

  /** The copy is open with its schema, and no row is in it yet. */
  function NothingCopied(): Dir {
    map[Marker := Sentinel, Db(MainFile) := SplitStory().main, Db(WalFile) := SplitStory().wal.value,
        Tmp(MainFile) := Main(map[], 0), Tmp(WalFile) := Wal(map[], Some(SCHEMA_VERSION)), Tmp(ShmFile) := WalIndex]
  }

  lemma NothingCopiedIsRescuing()
    ensures var d := NothingCopied();
      var s := SplitStory();
      && s.Proper() && Inv(d, s) && Rescuing(d, s) && Marker in d && WellTyped(d) && TmpOpen(d) && FreshStamp(d, 1)
      && CopyLacks(d, s, {EventRow(2)}) && s.Full().pages - {EventRow(2)} == map[] && EventRow(2) in s.Full().pages
  {
    hide Unpublished, BackingUp, Published, Restoring, CopyLacks;
    SplitStoryIsProper();
    assert Rescuing(NothingCopied(), SplitStory());
    OneRowIsLeft();
  }

  lemma OneRowIsLeft()
    ensures var s := SplitStory();
      && s.Proper() && CopyLacks(NothingCopied(), s, {EventRow(2)})
      && s.Full().pages - {EventRow(2)} == map[] && EventRow(2) in s.Full().pages
  {
    SplitStoryIsProper();
    assert SplitStory().Full().pages - {EventRow(2)} == map[];
    assert TmpImage(NothingCopied()) == Image(map[], SCHEMA_VERSION);
  }

  lemma HealthyCopyIsDone(d: Dir, s: Story)
    requires Inv(d, s) && TmpHealthy(d) && OriginalInPlace(d, s)
    ensures TmpDone(d, s)
  {
  }

  lemma ReadableRows(s: Story)
    requires s.Proper()
    ensures var img := Overlay(s.main, s.wal);
      && s.Full().pages.Keys == (set k | k in img.pages && img.pages[k].Row? && k !in s.lost)
      && forall k :: k in s.Full().pages ==> s.Full().pages[k] == img.pages[k]
  {
  }

  /** Steps a rescue can take: clearing, opening, two per row, closing. */
  function RescueCost(s: Story): nat
    requires s.Proper()
  {
    10 + 2 * |s.Full().pages|
  }

  /**
   The worktree directory. A step is allowed only if the directory it leaves
   satisfies the invariant of its story; trail records every directory there
   has been, whether or not the run that made it was killed next.
   */
  class Disk {
    var files: Dir
    var fuel: nat
    const lost: set<Key>
    ghost const story: Story
    ghost var trail: seq<Dir>

    ghost predicate Valid()
      reads this
    {
      && story.Proper() && story.lost == lost && WellTyped(files) && Inv(files, story)
      && |trail| > 0 && trail[|trail| - 1] == files
      && forall d :: d in trail ==> Inv(d, story)
    }

    constructor (d: Dir, lost: set<Key>, ghost s: Story)
      requires Inv(d, s) && s.lost == lost
      ensures Valid() && files == d && story == s && trail == [d]
    {
      files, fuel, story, trail := d, 0, s, [d];
      this.lost := lost;
    }

    /** Create a file or overwrite its content. */
    method Write(n: Name, c: Content) returns (alive: bool)
      requires Valid() && Inv(files[n := c], story)
      modifies this
      ensures Valid() && alive == (old(fuel) > 0)
      ensures alive ==> files == old(files)[n := c] && fuel == old(fuel) - 1 && trail == old(trail) + [files]
      ensures !alive ==> files == old(files) && fuel == 0 && trail == old(trail)
    {
      if fuel == 0 {
        return false;
      }
      files := files[n := c];
      fuel, trail := fuel - 1, trail + [files];
      return true;
    }

    /** os.Remove; a missing file is not an error and costs no step. */
    method Remove(n: Name) returns (alive: bool)
      requires Valid() && (n in files ==> Inv(files - {n}, story))
      modifies this
      ensures Valid() && alive == (old(fuel) > 0 || n !in old(files))
      ensures alive ==> files == old(files) - {n}
      ensures alive ==> fuel == old(fuel) - (if n in old(files) then 1 else 0)
      ensures !alive ==> files == old(files) && fuel == 0
      ensures trail == old(trail) || trail == old(trail) + [files]
    {
      if n !in files {
        assert files - {n} == files;
        return true;
      }
      if fuel == 0 {
        return false;
      }
      files := files - {n};
      fuel, trail := fuel - 1, trail + [files];
      return true;
    }

    /** os.Rename of a file that may be missing, as the callers guard it. */
    method Move(from: Name, to: Name) returns (alive: bool)
      requires Valid() && from != to && (from in files ==> Inv(Moved(files, from, to), story))
      modifies this
      ensures Valid() && alive == (old(fuel) > 0 || from !in old(files))
      ensures alive ==> files == MovedIf(old(files), from, to)
      ensures alive ==> fuel == old(fuel) - (if from in old(files) then 1 else 0)
      ensures !alive ==> files == old(files) && fuel == 0
      ensures trail == old(trail) || trail == old(trail) + [files]
    {
      if from !in files {
        return true;
      }
      if fuel == 0 {
        return false;
      }
      files := Moved(files, from, to);
      fuel, trail := fuel - 1, trail + [files];
      return true;
    }

    // ----------------------------------------------------------------
    // Probes
    // ----------------------------------------------------------------

    /** probeCorrupt: no database is no damage. */
    method ProbeCorrupt() returns (corrupt: bool)
      requires Valid()
      ensures corrupt <==> Db(MainFile) in files && !Sound(DbImage(files))
      ensures Marker !in files ==> if corrupt then Rescuing(files, story) else Recovered(files, story)
    {
      if Db(MainFile) !in files {
        return false;
      }
      corrupt := !Sound(DbImage(files));
    }

    method TmpIsHealthy() returns (healthy: bool)
      requires Valid()
      ensures healthy <==> TmpHealthy(files)
      ensures healthy <==>
        && Tmp(MainFile) in files && Tmp(WalFile) !in files && Tmp(ShmFile) !in files
        && files[Tmp(MainFile)].version == 1
        && forall k :: k in files[Tmp(MainFile)].pages ==> files[Tmp(MainFile)].pages[k].Row?
      ensures healthy && Marker in files ==> files[Tmp(MainFile)] == story.FullMain()
    {
      if Tmp(MainFile) !in files {
        return false;
      }
      if Tmp(WalFile) in files || Tmp(ShmFile) in files {
        return false;
      }
      var img := Overlay(files[Tmp(MainFile)], None);
      return Sound(img) && img.version == SCHEMA_VERSION;
    }

    /** latestBackupMain: the newest timestamp that has a main file. */
    method LatestBackup() returns (latest: Option<nat>)
      requires Valid()
      ensures latest.Some? ==> IsLatest(files, latest.value)
      ensures latest.None? ==> forall t: nat :: Bak(t, MainFile) !in files
    {
      latest := None;
      var names := files.Keys;
      while names != {}
        invariant names <= files.Keys
        invariant latest.Some? ==> Bak(latest.value, MainFile) in files
        invariant forall t: nat :: Bak(t, MainFile) in files && Bak(t, MainFile) !in names ==>
          latest.Some? && t <= latest.value
      {
        var n :| n in names;
        if n.Bak? && n.part == MainFile && (latest.None? || n.ts > latest.value) {
          latest := Some(n.ts);
        }
        names := names - {n};
      }
    }

    /** publishAlreadyComplete: a sound session.db and some backup main. */
    method PublishAlreadyComplete() returns (done: bool)
      requires Valid()
      ensures done <==> Db(MainFile) in files && Sound(DbImage(files)) && exists t: nat :: Bak(t, MainFile) in files
    {
      if Db(MainFile) !in files {
        return false;
      }
      if !Sound(DbImage(files)) {
        return false;
      }
      var latest := LatestBackup();
      return latest.Some?;
    }

    // ----------------------------------------------------------------
    // Rescue
    // ----------------------------------------------------------------

    /** removeDBFamily of the copy: the main file first, so that no half copy ever stands alone. */
    method RemoveTmpFamily() returns (alive: bool)
      requires Valid() && Rescuing(files, story)
      modifies this
      ensures Valid() && old(trail) <= trail && Rescuing(files, story) && SameButCopy(old(files), files)
      ensures alive ==> TmpGone(files) && fuel >= old(fuel) - 3
      ensures !alive ==> old(fuel) < 3
    {
      hide Inv;
      CopyMayChange(files, files - {Tmp(MainFile)}, story);
      alive := Remove(Tmp(MainFile));
      if !alive {
        return;
      }
      CopyMayChange(files, files - {Tmp(WalFile)}, story);
      alive := Remove(Tmp(WalFile));
      if !alive {
        return;
      }
      CopyMayChange(files, files - {Tmp(ShmFile)}, story);
      alive := Remove(Tmp(ShmFile));
    }

    /**
     rescueAll: copy every readable row of the original, as seen through its
     log, into a fresh database; SQLite may move logged pages into the copy's
     main file after any insert. Closing the copy folds its log away.
     */
    method RescueAll() returns (alive: bool, rows: nat)
      requires Valid() && Rescuing(files, story)
      modifies this
      ensures Valid() && old(trail) <= trail && Rescuing(files, story) && SameButCopy(old(files), files)
      ensures alive ==> TmpHealthy(files) && rows == |story.Full().pages|
      ensures alive ==> fuel >= old(fuel) - RescueCost(story)
      ensures !alive ==> old(fuel) < RescueCost(story)
    {
      rows := 0;
      alive := RemoveTmpFamily();
      if !alive {
        return;
      }
      var source := DbImage(files);
      alive := CreateTmp();
      if !alive {
        return;
      }
      alive, rows := CopyRows(source);
      if !alive {
        return;
      }
      alive := CloseTmp();
    }

    /** rescueSessions, then rescueSessionEvents. */
    method CopyRows(source: Image) returns (alive: bool, rows: nat)
      requires Valid() && Rescuing(files, story)
      requires TmpOpen(files)
      requires TmpImage(files) == Image(map[], SCHEMA_VERSION) && source == Overlay(story.main, story.wal)
      modifies this
      ensures Valid() && old(trail) <= trail && Rescuing(files, story) && SameButCopy(old(files), files)
      ensures TmpOpen(files)
      ensures alive ==> TmpImage(files) == story.Full() && rows == |story.Full().pages|
      ensures alive ==> fuel >= old(fuel) - 2 * |story.Full().pages|
      ensures !alive ==> old(fuel) < 2 * |story.Full().pages|
    {
      assert story.lost == lost && story.Proper();
      NothingCopiedYet(files, story);
      hide *;
      var sessions := SessionsOf(Readable(source, lost));
      var events := EventsOf(Readable(source, lost));
      rows := 0;
      var n, m;
      alive, n := CopyTable(source, sessions, events);
      if !alive {
        return;
      }
      ghost var between := files;
      alive, m := CopyTable(source, events, {});
      SameThrough(old(files), between, files);
      if !alive {
        return;
      }
      EverythingCopied(files, story);
      rows := n + m;
    }

    /** The row loop of one table, in whatever order its rows come; later are the rows of the table after it. */
    method CopyTable(source: Image, table: set<Key>, ghost later: set<Key>) returns (alive: bool, rows: nat)
      requires Valid() && Rescuing(files, story) && source == Overlay(story.main, story.wal)
      requires table !! later && CopyLacks(files, story, table + later)
      modifies this
      ensures Valid() && old(trail) <= trail && Rescuing(files, story) && SameButCopy(old(files), files)
      ensures TmpOpen(files)
      ensures alive ==> CopyLacks(files, story, later) && rows == |table|
      ensures alive ==> fuel >= old(fuel) - 2 * |table|
      ensures !alive ==> old(fuel) < 2 * |table|
    {
      hide Inv, Rescuing, Rescue, Sound, Overlay, CopyLacks, SameButCopy;
      SameAgain(files);
      CopyIsOpen(files, story, table + later);
      rows, alive := 0, true;
      var todo := table;
      while todo != {}
        invariant Valid() && old(trail) <= trail && Rescuing(files, story) && SameButCopy(old(files), files)
        invariant TmpOpen(files) && todo <= table && rows == |table| - |todo|
        invariant CopyLacks(files, story, todo + later)
        invariant fuel >= old(fuel) - 2 * rows
        decreases |todo|
      {
        ghost var here := files;
        var k :| k in todo;
        assert (todo + later) - {k} == (todo - {k}) + later;
        alive := CopyRow(source, k, todo + later);
        SameThrough(old(files), here, files);
        if !alive {
          return;
        }
        todo, rows := todo - {k}, rows + 1;
      }
      assert todo + later == later;
    }

    /** Copy one row; SQLite may then checkpoint. */
    method CopyRow(source: Image, k: Key, ghost left: set<Key>) returns (alive: bool)
      requires Valid() && Rescuing(files, story) && source == Overlay(story.main, story.wal)
      requires k in left && CopyLacks(files, story, left)
      modifies this
      ensures Valid() && old(trail) <= trail && Rescuing(files, story) && SameButCopy(old(files), files)
      ensures TmpOpen(files)
      ensures alive ==> CopyLacks(files, story, left - {k}) && fuel >= old(fuel) - 2
      ensures !alive ==> old(fuel) < 2
    {
      hide Inv, Rescuing, Rescue, Sound, Overlay;
      ReadableRows(story);
      OneRowLess(story.Full().pages, left, k);
      alive := InsertRow(k, source.pages[k]);
      if !alive {
        return;
      }
      if * {
        alive := Checkpoint();
      }
    }

    /** Opening the copy in WAL mode and applying the schema in one transaction. */
    method CreateTmp() returns (alive: bool)
      requires Valid() && Rescuing(files, story) && TmpGone(files)
      modifies this
      ensures Valid() && old(trail) <= trail && Rescuing(files, story) && SameButCopy(old(files), files)
      ensures alive ==> TmpOpen(files)
      ensures alive ==> TmpImage(files) == Image(map[], SCHEMA_VERSION)
      ensures alive ==> fuel >= old(fuel) - 4
      ensures !alive ==> old(fuel) < 4
    {
      hide Inv;
      var empty: Pages := map[];
      CopyMayChange(files, files[Tmp(MainFile) := Main(empty, 0)], story);
      alive := Write(Tmp(MainFile), Main(empty, 0));
      if !alive {
        return;
      }
      alive := OpenTmp();
      if !alive {
        return;
      }
      CopyMayChange(files, files[Tmp(WalFile) := Wal(empty, Some(SCHEMA_VERSION))], story);
      alive := Write(Tmp(WalFile), Wal(empty, Some(SCHEMA_VERSION)));
    }

    /** A connection opens the copy: an empty log and its index appear. */
    method OpenTmp() returns (alive: bool)
      requires Valid() && Rescuing(files, story)
      requires Tmp(MainFile) in files && Tmp(WalFile) !in files && Tmp(ShmFile) !in files
      modifies this
      ensures Valid() && old(trail) <= trail && Rescuing(files, story) && SameButCopy(old(files), files)
      ensures alive ==> TmpOpen(files) && TmpImage(files) == Overlay(old(files)[Tmp(MainFile)], None)
      ensures alive ==> fuel >= old(fuel) - 2
      ensures !alive ==> old(fuel) < 2
    {
      hide Inv;
      var empty: Pages := map[];
      CopyMayChange(files, files[Tmp(WalFile) := Wal(empty, None)], story);
      alive := Write(Tmp(WalFile), Wal(empty, None));
      if !alive {
        return;
      }
      CopyMayChange(files, files[Tmp(ShmFile) := WalIndex], story);
      alive := Write(Tmp(ShmFile), WalIndex);
      assert files[Tmp(MainFile)].pages + empty == files[Tmp(MainFile)].pages;
    }

    method InsertRow(k: Key, cell: Cell) returns (alive: bool)
      requires Valid() && Rescuing(files, story)
      requires TmpOpen(files)
      modifies this
      ensures Valid() && old(trail) <= trail && Rescuing(files, story) && SameButCopy(old(files), files)
      ensures TmpOpen(files)
      ensures alive ==> TmpImage(files) == Image(old(TmpImage(files)).pages[k := cell], old(TmpImage(files)).version)
      ensures alive ==> fuel >= old(fuel) - 1
      ensures !alive ==> old(fuel) == 0
    {
      var log := files[Tmp(WalFile)];
      var more := log.(frames := log.frames[k := cell]);
      CopyMayChange(files, files[Tmp(WalFile) := more], story);
      assert files[Tmp(MainFile)].pages + more.frames == (files[Tmp(MainFile)].pages + log.frames)[k := cell];
      alive := Write(Tmp(WalFile), more);
    }

    /** A checkpoint writes what a reader sees into the main file and leaves the log in place. */
    method Checkpoint() returns (alive: bool)
      requires Valid() && Rescuing(files, story)
      requires TmpOpen(files)
      modifies this
      ensures Valid() && old(trail) <= trail && Rescuing(files, story) && SameButCopy(old(files), files)
      ensures TmpOpen(files)
      ensures alive ==> TmpImage(files) == old(TmpImage(files))
      ensures alive ==> files[Tmp(MainFile)] == Main(TmpImage(files).pages, TmpImage(files).version)
      ensures alive ==> fuel >= old(fuel) - 1
      ensures !alive ==> old(fuel) == 0
    {
      var img := TmpImage(files);
      CopyMayChange(files, files[Tmp(MainFile) := Main(img.pages, img.version)], story);
      assert img.pages + files[Tmp(WalFile)].frames == img.pages;
      alive := Write(Tmp(MainFile), Main(img.pages, img.version));
    }

    /** The last connection to the copy closes: checkpoint, then the log and its index go. */
    method CloseTmp() returns (alive: bool)
      requires Valid() && Rescuing(files, story)
      requires TmpOpen(files)
      requires TmpImage(files) == story.Full()
      modifies this
      ensures Valid() && old(trail) <= trail && Rescuing(files, story) && SameButCopy(old(files), files)
      ensures alive ==> TmpHealthy(files) && fuel >= old(fuel) - 3
      ensures !alive ==> old(fuel) < 3
    {
      hide Inv;
      alive := Checkpoint();
      if !alive {
        return;
      }
      CopyMayChange(files, files - {Tmp(WalFile)}, story);
      alive := Remove(Tmp(WalFile));
      if !alive {
        return;
      }
      CopyMayChange(files, files - {Tmp(ShmFile)}, story);
      alive := Remove(Tmp(ShmFile));
    }

    /** verifyRescued: reopen, checkpoint and close the copy, clear its sidecars, probe it. */
    method VerifyRescued() returns (alive: bool)
      requires Valid() && Rescuing(files, story) && TmpHealthy(files)
      modifies this
      ensures Valid() && old(trail) <= trail && Rescuing(files, story) && SameButCopy(old(files), files)
      ensures alive ==> TmpHealthy(files) && fuel >= old(fuel) - 5
      ensures !alive ==> old(fuel) < 5
    {
      hide Inv;
      alive := OpenTmp();
      if !alive {
        return;
      }
      alive := CloseTmp();
      if !alive {
        return;
      }
      alive := Remove(Tmp(WalFile));
      alive := Remove(Tmp(ShmFile));
    }

    // ----------------------------------------------------------------
    // Publishing
    // ----------------------------------------------------------------

    /** backupOriginal: index, log, then main, under one fresh timestamp. */
    method BackupOriginal(ts: nat) returns (alive: bool)
      requires Valid() && BackingUp(files, story) && FreshStamp(files, ts)
      modifies this
      ensures Valid() && old(trail) <= trail && BackupsFrom(old(files), files, ts)
      ensures alive <==> old(fuel) >= BackupSteps(old(files))
      ensures alive ==> Unpublished(files, story) && fuel == old(fuel) - BackupSteps(old(files))
      ensures alive ==> files == BackedUp(old(files), ts)
      ensures alive ==> forall p: Part :: Lookup(files, Bak(ts, p)) == Lookup(old(files), Db(p))
      ensures !alive ==> BackingUp(files, story) && files == StoppedBackup(old(files), ts, old(fuel))
    {
      BackupIs(files, ts);
      alive := MoveSidecar(ShmFile, ts);
      if !alive {
        return;
      }
      alive := MoveSidecar(WalFile, ts);
      if !alive {
        return;
      }
      MainMayMove(files, story, ts);
      alive := Move(Db(MainFile), Bak(ts, MainFile));
    }

    method MoveSidecar(part: Part, ts: nat) returns (alive: bool)
      requires Valid() && BackingUp(files, story) && part != MainFile && Bak(ts, part) !in files
      modifies this
      ensures Valid() && old(trail) <= trail && BackingUp(files, story) && BackupsFrom(old(files), files, ts)
      ensures forall p: Part :: p != part ==> (Bak(ts, p) in files <==> Bak(ts, p) in old(files))
      ensures forall p: Part :: p != part ==> (Db(p) in files <==> Db(p) in old(files))
      ensures alive <==> old(fuel) > 0 || Db(part) !in old(files)
      ensures alive ==> Db(part) !in files && fuel == old(fuel) - (if Db(part) in old(files) then 1 else 0)
      ensures files == if alive then MovedIf(old(files), Db(part), Bak(ts, part)) else old(files)
    {
      if Db(part) in files {
        SidecarMayMove(files, story, part, ts);
      }
      alive := Move(Db(part), Bak(ts, part));
    }

    /** finishPublish: the copy takes the place of session.db, then incomplete backups go. */
    method FinishPublish() returns (alive: bool)
      requires Valid() && Unpublished(files, story)
      modifies this
      ensures Valid() && old(trail) <= trail && Backups(files) <= Backups(old(files))
      ensures alive ==> Published(files, story) && Marker in files && Orphans(files) == {}
      ensures alive ==> files == Swept(Moved(old(files), Tmp(MainFile), Db(MainFile)))
      ensures alive ==> forall t: nat, p: Part :: Bak(t, p) in files ==> Bak(t, MainFile) in files
      ensures alive ==> fuel >= old(fuel) - 1 - |Backups(old(files))|
      ensures !alive ==> old(fuel) < 1 + |Backups(old(files))|
      ensures old(fuel) == 0 ==> !alive && files == old(files)
      ensures old(fuel) == 1 ==> fuel == 0 && files == Moved(old(files), Tmp(MainFile), Db(MainFile))
    {
      CopyMayBePublished(files, story);
      alive := Move(Tmp(MainFile), Db(MainFile));
      if !alive {
        return;
      }
      assert Backups(files) == Backups(old(files));
      alive := SweepOrphanBackups();
    }

    /** sweepOrphanBackups: sidecars in a backup family without a main file. */
    method SweepOrphanBackups() returns (alive: bool)
      requires Valid() && Published(files, story)
      modifies this
      ensures Valid() && old(trail) <= trail && Published(files, story) && (Marker in files <==> Marker in old(files))
      ensures Backups(files) <= Backups(old(files))
      ensures alive ==> files == Swept(old(files)) && Orphans(files) == {}
      ensures alive ==> forall n: Name ::
        Lookup(files, n) == if n.Bak? && Bak(n.ts, MainFile) !in old(files) then None else Lookup(old(files), n)
      ensures alive ==> fuel >= old(fuel) - |Backups(old(files))|
      ensures !alive ==> old(fuel) < |Backups(old(files))|
      ensures old(fuel) == 0 ==> files == old(files) && fuel == 0
    {
      hide Inv, Published, WellTyped, Orphans, Swept, Backups;
      alive := true;
      var todo := Orphans(files);
      ghost var start, before := todo, files;
      OrphansAreBackups(files);
      NothingSwept(files);
      while todo != {}
        invariant Valid() && old(trail) <= trail && Published(files, story) && before == old(files)
        invariant todo <= start && start == Orphans(before)
        invariant files == before - (start - todo)
        invariant fuel >= old(fuel) - (|start| - |todo|)
        invariant old(fuel) == 0 ==> todo == start && fuel == 0
        decreases |todo|
      {
        var n :| n in todo;
        OneOrphanLess(before, start, todo, n);
        OrphanMayGo(files, story, n.ts, n.part);
        alive := Remove(n);
        if !alive {
          SweepKeepsTheRest(before, start - todo);
          return;
        }
        todo := todo - {n};
      }
      assert start - todo == start;
      SweepKeepsTheRest(before, start);
      SweepTakes(before);
    }

    /** restoreLatestBackup: log and index first, main last. */
    method RestoreLatestBackup() returns (alive: bool)
      requires Valid() && Marker in files && !TmpHealthy(files) && Db(MainFile) !in files
      modifies this
      ensures Valid() && old(trail) <= trail && Backups(files) <= Backups(old(files))
      ensures alive ==> Rescuing(files, story) && Marker in files && fuel >= old(fuel) - 3
      ensures alive ==> exists ts: nat ::
        IsLatest(old(files), ts) && files == Restored(old(files), ts) && FamilyReturned(old(files), files, ts)
      ensures !alive ==> old(fuel) < 3
    {
      hide FamilyReturned, Inv, Rescuing, BackingUp, Unpublished, Published, TmpHealthy, WellTyped;
      ghost var before := files;
      MarkedPhases(files, story);
      var latest := LatestBackup();
      ghost var ts: nat :| Restoring(files, story, ts);
      assert latest == Some(ts);
      alive := ReturnSidecar(latest.value, WalFile);
      if !alive {
        return;
      }
      alive := ReturnSidecar(latest.value, ShmFile);
      if !alive {
        return;
      }
      MainMayReturn(files, story, latest.value);
      RestoreReturnsFamily(before, latest.value);
      alive := Move(Bak(latest.value, MainFile), Db(MainFile));
    }

    method ReturnSidecar(ts: nat, part: Part) returns (alive: bool)
      requires Valid() && Restoring(files, story, ts) && part != MainFile
      modifies this
      ensures Valid() && old(trail) <= trail && Restoring(files, story, ts) && Backups(files) <= Backups(old(files))
      ensures forall p: Part :: p != part ==> (Bak(ts, p) in files <==> Bak(ts, p) in old(files))
      ensures alive ==> Bak(ts, part) !in files && fuel >= old(fuel) - 1
      ensures alive ==> files == MovedIf(old(files), Bak(ts, part), Db(part))
      ensures !alive ==> old(fuel) < 1
    {
      if Bak(ts, part) in files {
        SidecarMayReturn(files, story, ts, part);
      }
      alive := Move(Bak(ts, part), Db(part));
    }

    // ----------------------------------------------------------------
    // A whole run
    // ----------------------------------------------------------------

    /**
     Recover, killed when the fuel is used up. Whatever it is killed in the
     middle of, a run that is not killed leaves the finished recovery, and a run
     with enough fuel is not killed.
     */
    method Recover(ts: nat) returns (outcome: Outcome)
      requires Valid() && FreshStamp(files, ts)
      modifies this
      ensures Valid() && old(trail) <= trail && BackupsFrom(old(files), files, ts)
      ensures outcome != Killed ==> Recovered(files, story)
      ensures outcome.Done? ==> outcome.rows == |story.Full().pages|
      ensures outcome.Done? ==> forall t: nat, p: Part :: Bak(t, p) in files ==> Bak(t, MainFile) in files
      ensures outcome.Done? && Marker !in old(files) ==>
        FamilyKept(files, story, ts) && BackupsAfter(old(files), files, ts)
      ensures outcome.NoOp? <==> Recovered(old(files), story)
      ensures outcome.NoOp? ==> files == old(files)
      ensures outcome.MarkerOnly? ==> files == old(files) - {Marker} && Marker in old(files)
      ensures outcome.Killed? ==> old(fuel) < 26 + 2 * |story.Full().pages| + |Backups(old(files))|
      ensures RunIs(old(files), files, story, outcome, ts, old(fuel))
    {
      hide BackupsAfter, FamilyKept, KilledAt, KilledInBackup, OnlyMarkerLeft;
      RunsThatAreKnown(files, story, fuel);
      if Marker !in files {
        var corrupt := ProbeCorrupt();
        if !corrupt {
          assert Recovered(files, story);
          return NoOp;
        }
        MarkerMayAppear(files, story);
        MarkerIsNoBackup(files);
        var alive := Write(Marker, Sentinel);
        assert Backups(files) == Backups(old(files));
        if !alive {
          return Killed;
        }
      } else {
        var healthy := TmpIsHealthy();
        if healthy {
          outcome := ResumePublishFromTmp(ts);
          return;
        }
        MarkedPhases(files, story);
        var done := PublishAlreadyComplete();
        if done {
          MarkerMayGo(files, story);
          var alive := Remove(Marker);
          return if alive then MarkerOnly else Killed;
        }
        if Db(MainFile) !in files {
          var alive := RestoreLatestBackup();
          SubsetIsSmaller(Backups(files), Backups(old(files)));
          if !alive {
            return Killed;
          }
        }
      }
      outcome := RescueAndPublish(ts);
    }

    /** The common tail of a run that copies the original. */
    method RescueAndPublish(ts: nat) returns (outcome: Outcome)
      requires Valid() && Rescuing(files, story) && Marker in files && FreshStamp(files, ts)
      modifies this
      ensures Valid() && old(trail) <= trail && BackupsFrom(old(files), files, ts)
      ensures outcome.Done? || outcome.Killed?
      ensures outcome.Done? ==>
        && Recovered(files, story) && outcome.rows == |story.Full().pages|
        && forall t: nat, p: Part :: Bak(t, p) in files ==> Bak(t, MainFile) in files
      ensures outcome.Done? ==> FamilyKept(files, story, ts) && BackupsAfter(old(files), files, ts)
      ensures outcome.Killed? ==> old(fuel) < RescueCost(story) + 5 + PublishCost(old(files))
    {
      var alive, rows := RescueAll();
      CopyKeepsTheRest(old(files), files);
      if !alive {
        return Killed;
      }
      alive := VerifyRescued();
      CopyKeepsTheRest(old(files), files);
      if !alive {
        return Killed;
      }
      PublishingKeepsFamily(files, story, ts);
      outcome := Publish(ts, rows);
    }

    /** resumePublishFromTmp: a copy that looks finished is published without copying again. */
    method ResumePublishFromTmp(ts: nat) returns (outcome: Outcome)
      requires Valid() && TmpHealthy(files) && Marker in files && FreshStamp(files, ts)
      modifies this
      ensures Valid() && old(trail) <= trail && BackupsFrom(old(files), files, ts)
      ensures outcome.Done? || outcome.Killed?
      ensures outcome.Done? ==>
        && Recovered(files, story) && outcome.rows == |story.Full().pages|
        && forall t: nat, p: Part :: Bak(t, p) in files ==> Bak(t, MainFile) in files
      ensures outcome.Killed? ==> old(fuel) < PublishCost(old(files))
      ensures KilledInBackup(old(files), old(fuel)) ==>
        outcome.Killed? && files == KilledAt(old(files), ts, old(fuel))
    {
      HealthyPhases(files, story);
      var rows := |files[Tmp(MainFile)].pages|;
      if Db(MainFile) in files {
        outcome := Publish(ts, rows);
      } else {
        outcome := PublishCopy(rows);
      }
    }

    /** publishRescued and the removal of the marker. */
    method Publish(ts: nat, rows: nat) returns (outcome: Outcome)
      requires Valid() && BackingUp(files, story) && FreshStamp(files, ts)
      modifies this
      ensures Valid() && old(trail) <= trail && BackupsFrom(old(files), files, ts)
      ensures outcome == Done(rows) || outcome == Killed
      ensures outcome.Done? ==> Recovered(files, story) && forall t: nat, p: Part :: Bak(t, p) in files ==> Bak(t, MainFile) in files
      ensures outcome.Done? ==> files == PublishedOver(BackedUp(old(files), ts))
      ensures outcome.Killed? ==> old(fuel) < PublishCost(old(files))
      ensures old(fuel) <= BackupSteps(old(files)) + 1 ==>
        outcome.Killed? && files == KilledAt(old(files), ts, old(fuel))
    {
      var alive := BackupOriginal(ts);
      if !alive {
        return Killed;
      }
      AtMostThreeMore(old(files), files, ts);
      outcome := PublishCopy(rows);
    }

    method PublishCopy(rows: nat) returns (outcome: Outcome)
      requires Valid() && Unpublished(files, story)
      modifies this
      ensures Valid() && old(trail) <= trail && Backups(files) <= Backups(old(files))
      ensures outcome == Done(rows) || outcome == Killed
      ensures outcome.Done? ==> Recovered(files, story) && forall t: nat, p: Part :: Bak(t, p) in files ==> Bak(t, MainFile) in files
      ensures outcome.Done? ==> files == PublishedOver(old(files))
      ensures outcome.Killed? ==> old(fuel) < 2 + |Backups(old(files))|
      ensures old(fuel) == 0 ==> outcome.Killed? && files == old(files)
      ensures old(fuel) == 1 ==> outcome.Killed? && files == Moved(old(files), Tmp(MainFile), Db(MainFile))
    {
      var alive := FinishPublish();
      if !alive {
        return Killed;
      }
      MarkerMayGo(files, story);
      alive := Remove(Marker);
      if !alive {
        return Killed;
      }
      return Done(rows);
    }

    /**
     Any number of runs, each with its own kill point and its own later
     timestamp: every directory there ever was satisfies the invariant, and
     after the first run that is not killed the recovery stays finished. left
     are the directories before, between and after the runs.
     */
    method RecoverRepeatedly(kills: seq<nat>, stamps: seq<nat>)
      returns (outcomes: seq<Outcome>, ghost left: seq<Dir>)
      requires Valid() && |kills| == |stamps|
      requires forall i, j :: 0 <= i < j < |stamps| ==> stamps[i] < stamps[j]
      requires forall n, i :: n in Backups(files) && 0 <= i < |stamps| ==> n.ts < stamps[i]
      modifies this
      ensures Valid() && old(trail) <= trail && |outcomes| == |kills|
      ensures forall i :: 0 <= i < |outcomes| && outcomes[i] != Killed ==> Recovered(files, story)
      ensures forall i, j :: 0 <= i < j < |outcomes| && outcomes[i] != Killed ==> outcomes[j] == NoOp
      ensures forall i :: 0 <= i < |outcomes| && outcomes[i].Done? ==>
        forall t: nat, p: Part :: Bak(t, p) in files ==> Bak(t, MainFile) in files
      ensures |left| == |kills| + 1 && left[0] == old(files) && left[|kills|] == files
      ensures forall i :: 0 <= i < |kills| ==> RunIs(left[i], left[i + 1], story, outcomes[i], stamps[i], kills[i])
    {
      hide Inv, Recovered, TmpHealthy, RunIs;
      left := [files];
      outcomes := [];
      while |outcomes| < |kills|
        invariant Valid() && old(trail) <= trail && |outcomes| <= |kills|
        invariant forall n, i :: n in Backups(files) && |outcomes| <= i < |stamps| ==> n.ts < stamps[i]
        invariant forall i :: 0 <= i < |outcomes| && outcomes[i] != Killed ==> Recovered(files, story)
        invariant forall i, j :: 0 <= i < j < |outcomes| && outcomes[i] != Killed ==> outcomes[j] == NoOp
        invariant forall i :: 0 <= i < |outcomes| && outcomes[i].Done? ==>
          forall t: nat, p: Part :: Bak(t, p) in files ==> Bak(t, MainFile) in files
        invariant |left| == |outcomes| + 1 && left[0] == old(files) && left[|outcomes|] == files
        invariant forall i :: 0 <= i < |outcomes| ==> RunIs(left[i], left[i + 1], story, outcomes[i], stamps[i], kills[i])
      {
        fuel := kills[|outcomes|];
        var outcome := Recover(stamps[|outcomes|]);
        outcomes, left := outcomes + [outcome], left + [files];
      }
    }
  }
}
