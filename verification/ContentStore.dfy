/**
 The tables of the content store: artifacts addressed by content, the sources
 that refer to them, their chunks, and the full-text mirror the triggers keep.
 Registration and the two purges are one transaction each.
 */
module ContentStore {
  import opened Common
  import opened Rows

  type Hash = nat

  datatype Kind = Hook | Explicit

  datatype Artifact = Artifact(hash: Hash, media: string)

  datatype Source = Source(art: nat, kind: Kind, srcHash: string, raw: Option<Hash>, indexed: int)

  datatype Chunk = Chunk(art: nat, ordinal: nat, text: string)

  /** The watermark table may be missing, in an old store or after a failed creation. */
  datatype Db = Db(
    artifacts: map<nat, Artifact>,
    sources: map<string, Source>,
    chunks: map<nat, Chunk>,
    watermark: Option<nat>)

  datatype Registration = Registration(
    content: Artifact,
    texts: seq<string>,
    uri: string,
    kind: Kind,
    srcHash: string,
    raw: Option<Hash>,
    at: int,
    expected: string)

  // ------------------------------------------------------------------
  // What every transaction keeps
  // ------------------------------------------------------------------

  /** No dangling reference, one artifact per content and media type, one chunk per ordinal. */
  ghost predicate Sound(db: Db) {
    && (forall u :: u in db.sources ==> db.sources[u].art in db.artifacts)
    && (forall c :: c in db.chunks ==> db.chunks[c].art in db.artifacts)
    && (forall a, b :: a in db.artifacts && b in db.artifacts && db.artifacts[a] == db.artifacts[b] ==> a == b)
    && (forall c, d :: c in db.chunks && d in db.chunks && c != d ==>
          db.chunks[c].art != db.chunks[d].art || db.chunks[c].ordinal != db.chunks[d].ordinal)
  }

  const EMPTY := Db(map[], map[], map[], Some(0))

  // ------------------------------------------------------------------
  // Choosing what the hook purge removes
  // ------------------------------------------------------------------

  /** The source refers directly to an artifact with this content. */
  predicate Refers(db: Db, u: string, h: Hash) {
    u in db.sources && db.sources[u].art in db.artifacts && db.artifacts[db.sources[u].art].hash == h
  }

  /** Only hooks refer to the content, at least one does, and no other source keeps it as its raw blob. */
  predicate ShadowOwned(db: Db, h: Hash) {
    && (exists u :: u in db.sources && Refers(db, u, h) && db.sources[u].kind.Hook?)
    && (forall u :: u in db.sources && Refers(db, u, h) ==> db.sources[u].kind.Hook?)
    && (forall u :: u in db.sources && db.sources[u].raw == Some(h) ==> db.sources[u].kind.Hook?)
  }

  /** With a positive cutoff, no source has seen the content at or after it. */
  predicate OldEnough(db: Db, h: Hash, cutoff: int) {
    cutoff > 0 ==> forall u :: u in db.sources && Refers(db, u, h) ==> db.sources[u].indexed < cutoff
  }

  function Candidates(db: Db, cutoff: int): set<Hash> {
    set a | a in db.artifacts && ShadowOwned(db, db.artifacts[a].hash) && OldEnough(db, db.artifacts[a].hash, cutoff)
      :: db.artifacts[a].hash
  }

  /** shadowOwnedFilter: a limit that is not positive is no limit. */
  function Selected(db: Db, cutoff: int, limit: int): (r: set<Hash>)
    ensures r <= Candidates(db, cutoff)
  {
    if limit > 0 then FirstOf(Candidates(db, cutoff), limit) else Candidates(db, cutoff)
  }

  /**
   What the purge may take, read off the rows: some hook's source leads to the
   content, no other source leads to it or keeps it as its raw blob, and with a
   positive cutoff every source that leads to it was last seen before then.
   */
  ghost predicate Purgeable(db: Db, h: Hash, cutoff: int) {
    && (exists a, u :: a in db.artifacts && db.artifacts[a].hash == h && u in db.sources
          && db.sources[u].art == a && db.sources[u].kind == Hook)
    && (forall a, u :: a in db.artifacts && db.artifacts[a].hash == h && u in db.sources && db.sources[u].art == a ==>
          db.sources[u].kind == Hook && (cutoff > 0 ==> db.sources[u].indexed < cutoff))
    && (forall u :: u in db.sources && db.sources[u].kind == Explicit ==> db.sources[u].raw != Some(h))
  }

  lemma CandidatesArePurgeable(db: Db, cutoff: int)
    ensures forall h :: h in Candidates(db, cutoff) <==> Purgeable(db, h, cutoff)
  {
    forall h
      ensures h in Candidates(db, cutoff) <==> Purgeable(db, h, cutoff)
    {
      if Purgeable(db, h, cutoff) {
        var a, u :| a in db.artifacts && db.artifacts[a].hash == h && u in db.sources
          && db.sources[u].art == a && db.sources[u].kind == Hook;
        assert Refers(db, u, h);
        forall v | v in db.sources && Refers(db, v, h)
          ensures db.sources[v].kind.Hook? && (cutoff > 0 ==> db.sources[v].indexed < cutoff)
        {
          assert db.sources[v].art in db.artifacts;
        }
      } else if h in Candidates(db, cutoff) {
        var u :| u in db.sources && Refers(db, u, h) && db.sources[u].kind.Hook?;
        assert db.sources[u].art in db.artifacts;
        forall b, v | b in db.artifacts && db.artifacts[b].hash == h && v in db.sources && db.sources[v].art == b
          ensures db.sources[v].kind == Hook && (cutoff > 0 ==> db.sources[v].indexed < cutoff)
        {
          assert Refers(db, v, h);
        }
      }
    }
  }

  /** One pass takes purgeable contents only: all of them, or with a positive limit the least ones up to it. */
  ghost predicate IsOnePass(db: Db, cutoff: int, limit: int, hashes: set<Hash>) {
    && (forall h :: h in hashes ==> Purgeable(db, h, cutoff))
    && (limit <= 0 ==> forall h: Hash :: Purgeable(db, h, cutoff) ==> h in hashes)
    && (limit > 0 ==>
          && |hashes| <= limit
          && (|hashes| < limit ==> forall h: Hash :: Purgeable(db, h, cutoff) ==> h in hashes)
          && forall g: Hash, h: Hash :: g in hashes && h !in hashes && Purgeable(db, h, cutoff) ==> g < h)
  }

  lemma SelectedIsOnePass(db: Db, cutoff: int, limit: int)
    ensures IsOnePass(db, cutoff, limit, Selected(db, cutoff, limit))
  {
    var all := Candidates(db, cutoff);
    CandidatesArePurgeable(db, cutoff);
    hide Candidates, Purgeable;
    if limit > 0 {
      FirstOfIsSmallest(all, limit);
      FirstOfSize(all, limit);
      if |all| <= limit {
        FirstOfAll(all, limit);
      }
    }
  }

  // ------------------------------------------------------------------
  // The transactions
  // ------------------------------------------------------------------

  predicate OfHashes(artifacts: map<nat, Artifact>, art: nat, hs: set<Hash>) {
    art in artifacts && artifacts[art].hash in hs
  }

  function ArtifactsWithout(artifacts: map<nat, Artifact>, hs: set<Hash>): map<nat, Artifact> {
    map a | a in artifacts && artifacts[a].hash !in hs :: artifacts[a]
  }

  function SourcesWithout(artifacts: map<nat, Artifact>, sources: map<string, Source>, hs: set<Hash>): map<string, Source> {
    map u | u in sources && !OfHashes(artifacts, sources[u].art, hs) :: sources[u]
  }

  function ChunksOf(artifacts: map<nat, Artifact>, chunks: map<nat, Chunk>, hs: set<Hash>): set<nat> {
    set c | c in chunks && OfHashes(artifacts, chunks[c].art, hs)
  }

  /** The store without the contents in hs. */
  function Without(db: Db, hs: set<Hash>): Db {
    Db(ArtifactsWithout(db.artifacts, hs),
       SourcesWithout(db.artifacts, db.sources, hs),
       db.chunks - ChunksOf(db.artifacts, db.chunks, hs),
       db.watermark)
  }

  predicate Referred(sources: map<string, Source>, art: nat) {
    exists u :: u in sources && sources[u].art == art
  }

  function SourcesSince(sources: map<string, Source>, cutoff: int): map<string, Source> {
    map u | u in sources && sources[u].indexed >= cutoff :: sources[u]
  }

  function ReferredArtifacts(artifacts: map<nat, Artifact>, sources: map<string, Source>): map<nat, Artifact> {
    map a | a in artifacts && Referred(sources, a) :: artifacts[a]
  }

  /** Chunks of artifacts that no source refers to. */
  function UnreferredChunks(artifacts: map<nat, Artifact>, sources: map<string, Source>, chunks: map<nat, Chunk>): set<nat> {
    set c | c in chunks && chunks[c].art in artifacts && !Referred(sources, chunks[c].art)
  }

  /** The store without the sources indexed before the cutoff, and then without everything no source refers to. */
  function OlderPurged(db: Db, cutoff: int): Db {
    var left := SourcesSince(db.sources, cutoff);
    Db(ReferredArtifacts(db.artifacts, left), left, db.chunks - UnreferredChunks(db.artifacts, left, db.chunks), db.watermark)
  }

  /** nextArtifactID: a missing watermark counts as zero. */
  function NextArtifactId(db: Db): nat {
    (var high := Greatest(db.artifacts.Keys);
     if db.watermark.Some? && db.watermark.value > high then db.watermark.value else high) + 1
  }

  /** The chunk rows of an artifact, inserted in order, each with the id after the largest one. */
  function WithChunks(chunks: map<nat, Chunk>, art: nat, texts: seq<string>): map<nat, Chunk> {
    if texts == [] then chunks
    else
      var n := |texts| - 1;
      var some := WithChunks(chunks, art, texts[..n]);
      some[Greatest(some.Keys) + 1 := Chunk(art, n, texts[n])]
  }

  /** The old rows stay; the new ones have the ids that follow and the ordinals from zero. */
  lemma {:induction false} WithChunksShape(chunks: map<nat, Chunk>, art: nat, texts: seq<string>)
    ensures var r := WithChunks(chunks, art, texts);
      var high := Greatest(chunks.Keys);
      && Greatest(r.Keys) == high + |texts|
      && (forall c :: c in chunks ==> c in r && r[c] == chunks[c])
      && (forall c :: c in r && c !in chunks ==>
            high < c <= high + |texts| && r[c] == Chunk(art, c - high - 1, texts[c - high - 1]))
  {
    if texts != [] {
      var n := |texts| - 1;
      WithChunksShape(chunks, art, texts[..n]);
      var r := WithChunks(chunks, art, texts);
      assert Greatest(chunks.Keys) + |texts| in r.Keys;
    }
  }

  predicate Known(db: Db, content: Artifact) {
    exists a :: a in db.artifacts && db.artifacts[a] == content
  }

  /** The content's artifact, inserted with its chunks if it is new. */
  function WithArtifact(db: Db, reg: Registration, marks: bool): Db {
    if Known(db, reg.content) then db
    else
      var id := NextArtifactId(db);
      Db(db.artifacts[id := reg.content],
         db.sources,
         WithChunks(db.chunks, id, reg.texts),
         if db.watermark.Some? && marks then Some(id) else db.watermark)
  }

  /** The artifact of a content in the store. */
  function IdOf(db: Db, content: Artifact): (id: nat)
    requires Sound(db) && Known(db, content)
    ensures id in db.artifacts && db.artifacts[id] == content
  {
    var a :| a in db.artifacts && db.artifacts[a] == content;
    a
  }

  datatype Registered = Registered(db: Db, id: nat) | Conflict

  /** The whole transaction; a failed compare-and-swap rolls the new artifact back too. */
  function RegisterTx(db: Db, reg: Registration, marks: bool): Registered
    requires Sound(db)
  {
    WithArtifactIsSound(db, reg, marks);
    var d := WithArtifact(db, reg, marks);
    var id := IdOf(d, reg.content);
    var source := Source(id, reg.kind, reg.srcHash, reg.raw, reg.at);
    if reg.expected != "" && !(reg.uri in d.sources && d.sources[reg.uri].srcHash == reg.expected) then Conflict
    else Registered(d.(sources := d.sources[reg.uri := source]), id)
  }

  // ------------------------------------------------------------------
  // Soundness of the transactions
  // ------------------------------------------------------------------

  lemma WithArtifactIsSound(db: Db, reg: Registration, marks: bool)
    requires Sound(db)
    ensures Sound(WithArtifact(db, reg, marks)) && Known(WithArtifact(db, reg, marks), reg.content)
    ensures WithArtifact(db, reg, marks).sources == db.sources
  {
    if !Known(db, reg.content) {
      var id := NextArtifactId(db);
      WithChunksShape(db.chunks, id, reg.texts);
      assert id !in db.artifacts;
      var d := WithArtifact(db, reg, marks);
      assert id in d.artifacts && d.artifacts[id] == reg.content;
    }
  }

  lemma RegisterTxIsSound(db: Db, reg: Registration, marks: bool)
    requires Sound(db) && RegisterTx(db, reg, marks).Registered?
    ensures Sound(RegisterTx(db, reg, marks).db)
  {
    WithArtifactIsSound(db, reg, marks);
  }

  /**
   A registration conflicts exactly when it expects a source hash that is not
   there; otherwise its uri has the row it asked for and leads to its content,
   no other uri's row changes, content stored before keeps its id and its
   chunks, and new content brings all its chunk texts in order under an id above
   every id in use and the watermark.
   */
  lemma RegisterOutcome(db: Db, reg: Registration, marks: bool)
    requires Sound(db)
    ensures var r := RegisterTx(db, reg, marks);
      && (r.Conflict? <==>
            reg.expected != "" && !(reg.uri in db.sources && db.sources[reg.uri].srcHash == reg.expected))
      && (r.Registered? ==>
            && reg.uri in r.db.sources
            && r.db.sources[reg.uri] == Source(r.id, reg.kind, reg.srcHash, reg.raw, reg.at)
            && r.db.sources.Keys == db.sources.Keys + {reg.uri}
            && (forall u :: u in db.sources && u != reg.uri ==> r.db.sources[u] == db.sources[u])
            && r.id in r.db.artifacts && r.db.artifacts[r.id] == reg.content
            && (r.id in db.artifacts <==> Known(db, reg.content))
            && (r.id in db.artifacts ==>
                  r.db.artifacts == db.artifacts && r.db.chunks == db.chunks && r.db.watermark == db.watermark)
            && (r.id !in db.artifacts ==>
                  && HoldsTexts(r.db.chunks, r.id, reg.texts)
                  && r.db.artifacts == db.artifacts[r.id := reg.content]
                  && (forall a :: a in db.artifacts ==> a < r.id) && (db.watermark.Some? ==> db.watermark.value < r.id)
                  && r.db.watermark == (if db.watermark.Some? && marks then Some(r.id) else db.watermark)
                  && OnlyAddsChunks(db.chunks, r.db.chunks, r.id)))
  {
    hide Sound, HoldsTexts, OnlyAddsChunks, WithArtifact;
    WithArtifactIsSound(db, reg, marks);
    if Known(db, reg.content) {
      KnownArtifactStays(db, reg, marks);
    } else {
      NewArtifact(db, reg, marks);
    }
  }

  lemma NewArtifact(db: Db, reg: Registration, marks: bool)
    requires Sound(db) && !Known(db, reg.content)
    ensures var d := WithArtifact(db, reg, marks);
      && Sound(d) && Known(d, reg.content)
      && var id := IdOf(d, reg.content);
      && id !in db.artifacts && d.artifacts == db.artifacts[id := reg.content]
      && (forall a :: a in db.artifacts ==> a < id) && (db.watermark.Some? ==> db.watermark.value < id)
      && d.watermark == (if db.watermark.Some? && marks then Some(id) else db.watermark)
      && HoldsTexts(d.chunks, id, reg.texts) && OnlyAddsChunks(db.chunks, d.chunks, id)
  {
    WithArtifactIsSound(db, reg, marks);
    var id := NextArtifactId(db);
    assert id == IdOf(WithArtifact(db, reg, marks), reg.content);
    NewChunksHoldTexts(db.chunks, id, reg.texts);
    WithChunksShape(db.chunks, id, reg.texts);
  }

  /** The chunks that were there stay, and the new ones belong to this artifact. */
  ghost predicate OnlyAddsChunks(before: map<nat, Chunk>, after: map<nat, Chunk>, art: nat) {
    && (forall c :: c in before ==> c in after && after[c] == before[c])
    && (forall c :: c in after && c !in before ==> after[c].art == art)
  }

  /** The chunks of the artifact are these texts, by ordinal. */
  ghost predicate HoldsTexts(chunks: map<nat, Chunk>, art: nat, texts: seq<string>) {
    && (forall c :: c in chunks && chunks[c].art == art ==>
          chunks[c].ordinal < |texts| && chunks[c].text == texts[chunks[c].ordinal])
    && forall i :: 0 <= i < |texts| ==> Chunk(art, i, texts[i]) in chunks.Values
  }

  lemma {:induction false} NewChunksHoldTexts(chunks: map<nat, Chunk>, art: nat, texts: seq<string>)
    requires forall c :: c in chunks ==> chunks[c].art != art
    ensures HoldsTexts(WithChunks(chunks, art, texts), art, texts)
  {
    if texts != [] {
      var n := |texts| - 1;
      var some := WithChunks(chunks, art, texts[..n]);
      NewChunksHoldTexts(chunks, art, texts[..n]);
      var r := WithChunks(chunks, art, texts);
      var id := Greatest(some.Keys) + 1;
      assert r == some[id := Chunk(art, n, texts[n])] && id !in some;
      forall i | 0 <= i < |texts|
        ensures Chunk(art, i, texts[i]) in r.Values
      {
        if i < n {
          assert Chunk(art, i, texts[..n][i]) in some.Values;
          ValuesStay(some, id, Chunk(art, n, texts[n]), Chunk(art, i, texts[i]));
        } else {
          assert r[id] == Chunk(art, n, texts[n]);
        }
      }
    }
  }

  lemma ValuesStay(chunks: map<nat, Chunk>, id: nat, added: Chunk, chunk: Chunk)
    requires id !in chunks && chunk in chunks.Values
    ensures chunk in chunks[id := added].Values
  {
    var c :| c in chunks && chunks[c] == chunk;
    assert chunks[id := added][c] == chunk;
  }

  /** The purge by age removes the sources before the cutoff, and an artifact with its chunks exactly when no source is left for it. */
  lemma OlderPurgeOutcome(db: Db, cutoff: int)
    requires Sound(db)
    ensures var d := OlderPurged(db, cutoff);
      && (forall u :: u in d.sources <==> u in db.sources && db.sources[u].indexed >= cutoff)
      && (forall u :: u in d.sources ==> d.sources[u] == db.sources[u])
      && (forall a :: a in d.artifacts <==> exists u :: u in d.sources && d.sources[u].art == a)
      && (forall a :: a in d.artifacts ==> a in db.artifacts && d.artifacts[a] == db.artifacts[a])
      && (forall c :: c in d.chunks <==> c in db.chunks && db.chunks[c].art in d.artifacts)
      && (forall c :: c in d.chunks ==> d.chunks[c] == db.chunks[c])
      && d.watermark == db.watermark
  {
    var d := OlderPurged(db, cutoff);
    forall u | u in d.sources
      ensures Referred(d.sources, d.sources[u].art)
    {
    }
  }

  /** Exactly the rows of these contents are gone. */
  ghost predicate Removed(db: Db, d: Db, hs: set<Hash>)
    requires Sound(db)
  {
    && (forall a, v :: (a in d.artifacts && d.artifacts[a] == v) <==>
          a in db.artifacts && db.artifacts[a] == v && v.hash !in hs)
    && (forall u, v :: (u in d.sources && d.sources[u] == v) <==>
          u in db.sources && db.sources[u] == v && db.artifacts[v.art].hash !in hs)
    && (forall c, v :: (c in d.chunks && d.chunks[c] == v) <==>
          c in db.chunks && db.chunks[c] == v && db.artifacts[v.art].hash !in hs)
    && d.watermark == db.watermark
  }

  lemma PurgeRemoves(db: Db, hs: set<Hash>)
    requires Sound(db)
    ensures Removed(db, Without(db, hs), hs)
  {
  }

  lemma WithoutIsSound(db: Db, hs: set<Hash>)
    requires Sound(db)
    ensures Sound(Without(db, hs))
  {
  }

  lemma OlderPurgedIsSound(db: Db, cutoff: int)
    requires Sound(db)
    ensures Sound(OlderPurged(db, cutoff))
  {
    var d := OlderPurged(db, cutoff);
    forall u | u in d.sources
      ensures d.sources[u].art in d.artifacts
    {
      assert Referred(d.sources, d.sources[u].art);
    }
  }

  // ------------------------------------------------------------------
  // The hook purge
  // ------------------------------------------------------------------

  lemma PurgeOfOthers(db: Db, hs: set<Hash>, h: Hash)
    requires h !in hs
    ensures forall u :: Refers(Without(db, hs), u, h) <==> Refers(db, u, h)
    ensures forall u :: Refers(db, u, h) ==> u in Without(db, hs).sources
    ensures forall u :: u in Without(db, hs).sources ==> u in db.sources && Without(db, hs).sources[u] == db.sources[u]
  {
  }

  lemma PurgedSourcesAreHooks(db: Db, hs: set<Hash>, cutoff: int)
    requires Sound(db) && hs <= Candidates(db, cutoff)
    ensures forall u :: u in db.sources && u !in Without(db, hs).sources ==> db.sources[u].kind.Hook?
  {
    forall u | u in db.sources && u !in Without(db, hs).sources
      ensures db.sources[u].kind.Hook?
    {
      var g := db.artifacts[db.sources[u].art].hash;
      assert g in hs && ShadowOwned(db, g) && Refers(db, u, g);
    }
  }

  lemma OthersStayCandidates(db: Db, hs: set<Hash>, cutoff: int, h: Hash)
    requires Sound(db) && hs <= Candidates(db, cutoff) && h !in hs
    ensures ShadowOwned(Without(db, hs), h) <==> ShadowOwned(db, h)
    ensures OldEnough(Without(db, hs), h, cutoff) <==> OldEnough(db, h, cutoff)
  {
    PurgeOfOthers(db, hs, h);
    PurgedSourcesAreHooks(db, hs, cutoff);
    hide Without, Candidates, Refers;
  }

  /** Removing some of the candidates makes no other content a candidate, nor saves one. */
  lemma CandidatesAfterPurge(db: Db, hs: set<Hash>, cutoff: int)
    requires Sound(db) && hs <= Candidates(db, cutoff)
    ensures Candidates(Without(db, hs), cutoff) == Candidates(db, cutoff) - hs
  {
    forall h | h !in hs
      ensures ShadowOwned(Without(db, hs), h) <==> ShadowOwned(db, h)
      ensures OldEnough(Without(db, hs), h, cutoff) <==> OldEnough(db, h, cutoff)
    {
      OthersStayCandidates(db, hs, cutoff, h);
    }
    hide ShadowOwned, OldEnough, Sound;
  }

  lemma PurgesCompose(db: Db, g: set<Hash>, h: set<Hash>)
    ensures Without(Without(db, g), h) == Without(db, g + h)
  {
    var d := Without(db, g);
    forall a
      ensures OfHashes(db.artifacts, a, g + h) <==> OfHashes(db.artifacts, a, g) || OfHashes(d.artifacts, a, h)
    {
    }
    assert Without(d, h).artifacts == Without(db, g + h).artifacts;
    assert Without(d, h).sources == Without(db, g + h).sources;
    assert Without(d, h).chunks == Without(db, g + h).chunks;
  }

  /** The hook purge repeated until it reports no content. */
  function UntilZero(db: Db, cutoff: int, limit: int): Db
    requires Sound(db)
    decreases |Candidates(db, cutoff)|
  {
    var hs := Selected(db, cutoff, limit);
    if hs == {} then db
    else
      CandidatesAfterPurge(db, hs, cutoff);
      WithoutIsSound(db, hs);
      UntilZero(Without(db, hs), cutoff, limit)
  }

  /** Limited passes until zero remove exactly what one unlimited pass removes. */
  lemma {:induction false} PassesEqualOnePass(db: Db, cutoff: int, limit: int)
    requires Sound(db)
    ensures UntilZero(db, cutoff, limit) == Without(db, Selected(db, cutoff, 0))
    ensures Candidates(UntilZero(db, cutoff, limit), cutoff) == {}
    decreases |Candidates(db, cutoff)|
  {
    hide Candidates, Without, Sound, Selected;
    var hs := Selected(db, cutoff, limit);
    if hs == {} {
      NothingMoreToPurge(db, cutoff, limit);
    } else {
      OnePassLess(db, hs, cutoff);
      PassesEqualOnePass(Without(db, hs), cutoff, limit);
    }
  }

  /** After one pass the rest of the work is what it was without the part done. */
  lemma OnePassLess(db: Db, hs: set<Hash>, cutoff: int)
    requires Sound(db) && hs != {} && hs <= Candidates(db, cutoff)
    ensures var d := Without(db, hs);
      && Sound(d) && |Candidates(d, cutoff)| < |Candidates(db, cutoff)|
      && Without(d, Selected(d, cutoff, 0)) == Without(db, Selected(db, cutoff, 0))
  {
    CandidatesAfterPurge(db, hs, cutoff);
    WithoutIsSound(db, hs);
    var all := Candidates(db, cutoff);
    PurgesCompose(db, hs, all - hs);
    hide Candidates, Without, Sound;
    SplitSet(all, hs);
  }

  lemma SplitSet(all: set<Hash>, hs: set<Hash>)
    requires hs <= all && hs != {}
    ensures hs + (all - hs) == all && |all - hs| < |all|
  {
    assert hs + (all - hs) == all;
    assert |all| == |hs| + |all - hs|;
  }

  lemma NothingMoreToPurge(db: Db, cutoff: int, limit: int)
    requires Selected(db, cutoff, limit) == {}
    ensures Candidates(db, cutoff) == {} && Without(db, Selected(db, cutoff, 0)) == db
  {
    NoneSelectedIsNoneLeft(db, cutoff, limit);
    NothingPurged(db);
  }

  lemma NoneSelectedIsNoneLeft(db: Db, cutoff: int, limit: int)
    requires Selected(db, cutoff, limit) == {}
    ensures Candidates(db, cutoff) == {}
  {
    hide Candidates;
    if limit > 0 {
      FirstOfSize(Candidates(db, cutoff), limit);
    }
  }

  lemma NothingPurged(db: Db)
    ensures Without(db, {}) == db
  {
    assert Without(db, {}).artifacts == db.artifacts;
    assert Without(db, {}).sources == db.sources;
    assert Without(db, {}).chunks == db.chunks;
  }

  /** Explicitly stored content keeps its sources, artifacts, chunks and raw blobs. */
  lemma ExplicitIsUntouched(db: Db, cutoff: int, limit: int, u: string)
    requires Sound(db) && u in db.sources && db.sources[u].kind.Explicit?
    ensures var hs := Selected(db, cutoff, limit);
      var d := Without(db, hs);
      var s := db.sources[u];
      && u in d.sources && d.sources[u] == s
      && s.art in d.artifacts && d.artifacts[s.art] == db.artifacts[s.art]
      && (forall c :: c in db.chunks && db.chunks[c].art == s.art ==> c in d.chunks && d.chunks[c] == db.chunks[c])
      && (s.raw.Some? ==> s.raw.value !in hs)
  {
    var hs := Selected(db, cutoff, limit);
    assert Refers(db, u, db.artifacts[db.sources[u].art].hash);
    assert db.artifacts[db.sources[u].art].hash !in hs;
  }

  /** A purged content leaves no row behind; with a cutoff, nothing seen since then is purged. */
  lemma PurgedContentIsGone(db: Db, cutoff: int, limit: int, h: Hash)
    requires Sound(db) && h in Selected(db, cutoff, limit)
    ensures var d := Without(db, Selected(db, cutoff, limit));
      && (forall a :: a in d.artifacts ==> d.artifacts[a].hash != h)
      && (forall u :: !Refers(d, u, h))
      && (forall a :: a in db.artifacts && db.artifacts[a].hash == h ==>
            forall c :: c in d.chunks ==> d.chunks[c].art != a)
      && (cutoff > 0 ==> forall u :: u in db.sources && Refers(db, u, h) ==> db.sources[u].indexed < cutoff)
  {
    WithoutIsSound(db, Selected(db, cutoff, limit));
  }

  // ------------------------------------------------------------------
  // Histories
  // ------------------------------------------------------------------

  datatype Op =
    | Register(reg: Registration)
    | PurgeHook(cutoff: int, limit: int)
    | PurgeOlder(before: int)
    | OpenStore(created: bool)

  /** One transaction, the watermark being written when an id is issued; or an open, which may create a missing watermark table. */
  function Apply(db: Db, op: Op): (d: Db)
    requires Sound(db)
    ensures Sound(d)
  {
    match op
    case Register(reg) =>
      var r := RegisterTx(db, reg, true);
      if r.Conflict? then db
      else
        RegisterTxIsSound(db, reg, true);
        r.db
    case PurgeHook(cutoff, limit) =>
      WithoutIsSound(db, Selected(db, cutoff, limit));
      Without(db, Selected(db, cutoff, limit))
    case PurgeOlder(before) =>
      OlderPurgedIsSound(db, before);
      OlderPurged(db, before)
    case OpenStore(created) =>
      if created && db.watermark.None? then db.(watermark := Some(0)) else db
  }

  function Run(db: Db, ops: seq<Op>): (d: Db)
    requires Sound(db)
    ensures Sound(d)
    decreases |ops|
  {
    if ops == [] then db else Run(Apply(db, ops[0]), ops[1..])
  }

  /** The watermark is at least every id in use. */
  predicate Covers(db: Db) {
    db.watermark.Some? && forall a :: a in db.artifacts ==> a <= db.watermark.value
  }

  /** What an id issued up to d still means in e. */
  ghost predicate Fixed(d: Db, e: Db)
    requires Covers(d) && Covers(e)
  {
    && d.watermark.value <= e.watermark.value
    && (forall a :: a in e.artifacts && a <= d.watermark.value ==> a in d.artifacts && e.artifacts[a] == d.artifacts[a])
    && (forall c :: c in e.chunks && e.chunks[c].art <= d.watermark.value ==> c in d.chunks && d.chunks[c] == e.chunks[c])
    && (forall c :: c in d.chunks && d.chunks[c].art in e.artifacts ==> c in e.chunks && d.chunks[c] == e.chunks[c])
  }

  lemma StepIsFixed(db: Db, op: Op)
    requires Sound(db) && Covers(db)
    ensures Covers(Apply(db, op)) && Fixed(db, Apply(db, op))
  {
    match op
    case Register(reg) => RegisterIsFixed(db, reg);
    case PurgeHook(cutoff, limit) =>
    case PurgeOlder(before) =>
    case OpenStore(_) =>
  }

  lemma RegisterIsFixed(db: Db, reg: Registration)
    requires Sound(db) && Covers(db)
    ensures var d := WithArtifact(db, reg, true); Covers(d) && Fixed(db, d)
  {
    WithChunksShape(db.chunks, NextArtifactId(db), reg.texts);
  }

  lemma FixedComposes(d: Db, e: Db, f: Db)
    requires Sound(d) && Covers(d) && Covers(e) && Covers(f) && Fixed(d, e) && Fixed(e, f)
    ensures Fixed(d, f)
  {
    forall c | c in f.chunks && f.chunks[c].art <= d.watermark.value
      ensures c in d.chunks && d.chunks[c] == f.chunks[c]
    {
      assert c in e.chunks;
    }
    forall c | c in d.chunks && d.chunks[c].art in f.artifacts
      ensures c in f.chunks && d.chunks[c] == f.chunks[c]
    {
      assert d.chunks[c].art in e.artifacts;
    }
  }

  lemma {:induction false} RunIsFixed(db: Db, ops: seq<Op>)
    requires Sound(db) && Covers(db)
    ensures Covers(Run(db, ops)) && Fixed(db, Run(db, ops))
    decreases |ops|
  {
    if ops != [] {
      StepIsFixed(db, ops[0]);
      RunIsFixed(Apply(db, ops[0]), ops[1..]);
      FixedComposes(db, Apply(db, ops[0]), Run(db, ops));
    }
  }

  datatype Reading = Text(text: string) | NotFound | InvalidSelector

  /** The chunk selector: the artifact first, then the chunk, then whether the one belongs to the other. */
  function ReadChunk(db: Db, art: nat, chunk: nat): Reading {
    if art !in db.artifacts || chunk !in db.chunks then NotFound
    else if db.chunks[chunk].art != art then InvalidSelector
    else Text(db.chunks[chunk].text)
  }

  /** Some chunk id reads as this text. */
  ghost predicate IsRead(db: Db, art: nat, text: string) {
    exists c :: ReadChunk(db, art, c) == Text(text)
  }

  /**
   What a registration of new content stored is read back, chunk by chunk and
   nothing else; what other artifacts read as stays, and a pair of an artifact
   and another's chunk is refused as such.
   */
  lemma RegisteredTextsAreRead(db: Db, reg: Registration, marks: bool)
    requires Sound(db) && !Known(db, reg.content) && RegisterTx(db, reg, marks).Registered?
    ensures var r := RegisterTx(db, reg, marks);
      && (forall i :: 0 <= i < |reg.texts| ==> IsRead(r.db, r.id, reg.texts[i]))
      && (forall c, t :: ReadChunk(r.db, r.id, c) == Text(t) ==> t in reg.texts)
      && (forall a, c, t :: a != r.id ==> (ReadChunk(r.db, a, c) == Text(t) <==> ReadChunk(db, a, c) == Text(t)))
      && (forall a, c :: ReadChunk(r.db, a, c) == InvalidSelector <==>
            a in r.db.artifacts && c in r.db.chunks && r.db.chunks[c].art != a)
  {
    var r := RegisterTx(db, reg, marks);
    RegisterOutcome(db, reg, marks);
    hide RegisterTx, Known, HoldsTexts, OnlyAddsChunks, ReadChunk, IsRead;
    NewTextsAreRead(db, r.db, r.id, reg.content, reg.texts);
  }

  lemma NewTextsAreRead(db: Db, d: Db, id: nat, content: Artifact, texts: seq<string>)
    requires id !in db.artifacts && d.artifacts == db.artifacts[id := content]
    requires forall c :: c in db.chunks ==> db.chunks[c].art in db.artifacts
    requires HoldsTexts(d.chunks, id, texts) && OnlyAddsChunks(db.chunks, d.chunks, id)
    ensures forall i :: 0 <= i < |texts| ==> IsRead(d, id, texts[i])
    ensures forall c, t :: ReadChunk(d, id, c) == Text(t) ==> t in texts
    ensures forall a, c, t :: a != id ==> (ReadChunk(d, a, c) == Text(t) <==> ReadChunk(db, a, c) == Text(t))
    ensures forall a, c :: ReadChunk(d, a, c) == InvalidSelector <==>
      a in d.artifacts && c in d.chunks && d.chunks[c].art != a
  {
    forall i | 0 <= i < |texts|
      ensures IsRead(d, id, texts[i])
    {
      var c := TextIsRead(d, id, texts, i);
    }
  }

  lemma TextIsRead(d: Db, id: nat, texts: seq<string>, i: nat) returns (c: nat)
    requires id in d.artifacts && HoldsTexts(d.chunks, id, texts) && i < |texts|
    ensures ReadChunk(d, id, c) == Text(texts[i])
  {
    assert Chunk(id, i, texts[i]) in d.chunks.Values;
    c :| c in d.chunks && d.chunks[c] == Chunk(id, i, texts[i]);
  }

  /**
   Whatever is registered and purged in between, an id held from before names
   the same content or nothing, and a chunk of it reads as the same text or not
   at all, although chunk ids are used again.
   */
  lemma StaleReferencesAreSafe(before: seq<Op>, after: seq<Op>, art: nat)
    requires art in Run(EMPTY, before).artifacts
    ensures var d := Run(EMPTY, before);
      var e := Run(d, after);
      if art in e.artifacts then
        && e.artifacts[art] == d.artifacts[art]
        && forall c, t :: ReadChunk(e, art, c) == Text(t) <==> ReadChunk(d, art, c) == Text(t)
      else forall c :: ReadChunk(e, art, c) == NotFound
  {
    RunIsFixed(EMPTY, before);
    RunIsFixed(Run(EMPTY, before), after);
  }

  /** An id that was purged is never found again. */
  lemma PurgedIdsStayUnknown(before: seq<Op>, during: seq<Op>, after: seq<Op>, art: nat)
    requires art in Run(EMPTY, before).artifacts && art !in Run(Run(EMPTY, before), during).artifacts
    ensures art !in Run(Run(Run(EMPTY, before), during), after).artifacts
  {
    RunIsFixed(EMPTY, before);
    RunIsFixed(Run(EMPTY, before), during);
    RunIsFixed(Run(Run(EMPTY, before), during), after);
  }

  // ------------------------------------------------------------------
  // When the watermark is behind
  // ------------------------------------------------------------------

  /** Ids in both mean the same content. */
  predicate SameIds(d: Db, e: Db) {
    forall a :: a in d.artifacts && a in e.artifacts ==> d.artifacts[a] == e.artifacts[a]
  }

  /** A missing watermark counts as zero. */
  function Mark(db: Db): nat {
    if db.watermark.Some? then db.watermark.value else 0
  }

  predicate AllMarked(db: Db) {
    forall a :: a in db.artifacts ==> a <= Mark(db)
  }

  /**
   Ids keep their meaning in every history exactly when every id in use is at
   most the watermark. A store from before the watermark, or one whose watermark
   table could not be created, does not meet this while it has any artifact.
   */
  lemma WatermarkMustCover(db: Db)
    requires Sound(db)
    ensures (forall ops :: SameIds(db, Run(db, ops))) <==> AllMarked(db)
    ensures db.watermark.None? && 0 !in db.artifacts ==> (AllMarked(db) <==> db.artifacts == map[])
  {
    if AllMarked(db) {
      forall ops
        ensures SameIds(db, Run(db, ops))
      {
        MarkedIdsStay(db, ops, Mark(db));
      }
    } else {
      var ops := ReuseAnId(db);
      assert !SameIds(db, Run(db, ops));
    }
    if db.watermark.None? && 0 !in db.artifacts && db.artifacts != map[] {
      assert Greatest(db.artifacts.Keys) in db.artifacts;
    }
  }

  /** Ids up to the watermark are never issued again, whatever becomes of the table. */
  lemma {:induction false} MarkedIdsStay(db: Db, ops: seq<Op>, m: nat)
    requires Sound(db) && m <= Mark(db)
    ensures var e := Run(db, ops);
      forall a :: a in e.artifacts && a <= m ==> a in db.artifacts && e.artifacts[a] == db.artifacts[a]
    decreases |ops|
  {
    if ops != [] {
      MarkedIdsStayOnce(db, ops[0]);
      MarkedIdsStay(Apply(db, ops[0]), ops[1..], m);
    }
  }

  lemma MarkedIdsStayOnce(db: Db, op: Op)
    requires Sound(db)
    ensures var d := Apply(db, op);
      && Mark(db) <= Mark(d)
      && forall a :: a in d.artifacts && a <= Mark(db) ==> a in db.artifacts && d.artifacts[a] == db.artifacts[a]
  {
    hide Sound, Known, WithChunks, Candidates, FirstOf;
  }

  /** A registration whose watermark write fails leaves a covered store covered exactly when it adds no artifact. */
  lemma FailedMarkUncovers(db: Db, reg: Registration)
    requires Sound(db) && Covers(db) && RegisterTx(db, reg, false).Registered?
    ensures Covers(RegisterTx(db, reg, false).db) <==> Known(db, reg.content)
  {
    var d := RegisterTx(db, reg, false).db;
    assert Known(db, reg.content) ==> d.artifacts == db.artifacts;
    assert !Known(db, reg.content) ==> NextArtifactId(db) in d.artifacts && NextArtifactId(db) > db.watermark.value;
  }

  /** Purge everything, then register new contents until the issued ids reach the one that was in use. */
  lemma ReuseAnId(db: Db) returns (ops: seq<Op>)
    requires Sound(db) && !AllMarked(db)
    ensures !SameIds(db, Run(db, ops))
  {
    var top := Greatest(db.artifacts.Keys);
    var base := db.artifacts[top].hash + 1;
    var purge := PurgeEverything(db);
    var n := top - Mark(db);
    ops := [PurgeOlder(purge)] + Fill(base, n);
    assert ops[1..] == Fill(base, n);
    assert High(Apply(db, PurgeOlder(purge))) == Mark(db) && HashesBelow(Apply(db, PurgeOlder(purge)), base);
    hide Apply, Fill, Sound, High, HashesBelow;
    FillReaches(Apply(db, PurgeOlder(purge)), base, n);
    assert HasContent(Run(db, ops), top, base + n - 1);
  }

  /** The id before the next one to be issued. */
  function High(db: Db): nat {
    NextArtifactId(db) - 1
  }

  lemma PurgeEverything(db: Db) returns (cutoff: int)
    requires Sound(db)
    ensures OlderPurged(db, cutoff) == Db(map[], map[], map[], db.watermark)
  {
    cutoff := LaterThanAll(db.sources);
    var d := OlderPurged(db, cutoff);
    assert d.sources == map[];
    assert d.artifacts == map[] && d.chunks == map[];
  }

  lemma {:induction false} LaterThanAll(sources: map<string, Source>) returns (cutoff: int)
    ensures forall u :: u in sources ==> sources[u].indexed < cutoff
    decreases |sources|
  {
    if sources == map[] {
      cutoff := 0;
    } else {
      var u :| u in sources;
      var rest := sources - {u};
      assert rest.Keys == sources.Keys - {u};
      var c := LaterThanAll(rest);
      cutoff := if sources[u].indexed < c then c else sources[u].indexed + 1;
      forall v | v in sources
        ensures sources[v].indexed < cutoff
      {
        assert v == u || v in rest;
      }
    }
  }

  function Fresh(hash: Hash): Registration {
    Registration(Artifact(hash, ""), [], "u", Explicit, "", None, 0, "")
  }

  function Fill(base: Hash, n: nat): seq<Op>
    decreases n
  {
    if n == 0 then [] else [Register(Fresh(base))] + Fill(base + 1, n - 1)
  }

  predicate HasContent(db: Db, id: nat, hash: Hash) {
    id in db.artifacts && db.artifacts[id].hash == hash
  }

  predicate HashesBelow(db: Db, base: Hash) {
    forall a :: a in db.artifacts ==> db.artifacts[a].hash < base
  }

  lemma {:induction false} FillReaches(db: Db, base: Hash, n: nat)
    requires Sound(db) && n > 0 && HashesBelow(db, base)
    ensures HasContent(Run(db, Fill(base, n)), High(db) + n, base + n - 1)
    decreases n
  {
    hide *;
    FreshIsNext(db, base);
    FillFirst(db, base, n);
    if n > 1 {
      FillReaches(Apply(db, Register(Fresh(base))), base + 1, n - 1);
    }
  }

  lemma FillFirst(db: Db, base: Hash, n: nat)
    requires Sound(db) && n > 0
    ensures Run(db, Fill(base, n)) == Run(Apply(db, Register(Fresh(base))), Fill(base + 1, n - 1))
    ensures n == 1 ==> Run(db, Fill(base, n)) == Apply(db, Register(Fresh(base)))
  {
    hide Apply, Sound;
    assert Fill(base, n)[1..] == Fill(base + 1, n - 1);
    assert Fill(base + 1, 0) == [];
  }

  lemma FreshIsNext(db: Db, base: Hash)
    requires Sound(db) && HashesBelow(db, base)
    ensures var d := Apply(db, Register(Fresh(base)));
      && High(d) == High(db) + 1 && HasContent(d, High(db) + 1, base) && HashesBelow(d, base + 1)
  {
    assert !Known(db, Artifact(base, ""));
    var d := Apply(db, Register(Fresh(base)));
    assert d.artifacts.Keys == db.artifacts.Keys + {High(db) + 1};
    assert High(db) + 1 in d.artifacts.Keys;
  }

  // ------------------------------------------------------------------
  // The store, statement by statement
  // ------------------------------------------------------------------

  class Store {
    var artifacts: map<nat, Artifact>
    var sources: map<string, Source>
    var chunks: map<nat, Chunk>
    var fts: map<nat, string>
    var watermark: Option<nat>

    function View(): Db
      reads this
    {
      Db(artifacts, sources, chunks, watermark)
    }

    /** The full-text index holds exactly the text of the chunks. */
    ghost predicate Mirrored()
      reads this`chunks, this`fts
    {
      fts.Keys == chunks.Keys && forall c :: c in chunks ==> fts[c] == chunks[c].text
    }

    ghost predicate Valid()
      reads this
    {
      Sound(View()) && Mirrored()
    }

    constructor ()
      ensures Valid() && View() == EMPTY
    {
      artifacts, sources, chunks, fts, watermark := map[], map[], map[], map[], Some(0);
    }

    /** ensureIDWatermark: CREATE TABLE IF NOT EXISTS, which may fail. */
    method EnsureWatermark(created: bool)
      requires Valid()
      modifies this`watermark
      ensures Valid() && View() == Apply(old(View()), OpenStore(created))
      ensures watermark == if created && old(watermark).None? then Some(0) else old(watermark)
    {
      if watermark.None? && created {
        watermark := Some(0);
      }
    }

    /** DELETE FROM chunks, with the trigger that keeps the full-text index. */
    method DeleteChunks(ids: set<nat>)
      requires Mirrored()
      modifies this`chunks, this`fts
      ensures Mirrored() && chunks == old(chunks) - ids
    {
      chunks, fts := chunks - ids, fts - ids;
    }

    /** INSERT INTO chunks, with its trigger. */
    method InsertChunk(chunk: Chunk)
      requires Mirrored()
      modifies this`chunks, this`fts
      ensures Mirrored() && chunks == old(chunks)[Greatest(old(chunks).Keys) + 1 := chunk]
    {
      var id := Greatest(chunks.Keys) + 1;
      chunks, fts := chunks[id := chunk], fts[id := chunk.text];
    }

    /** purgeHookRows: three statements over one selection, evaluated again for each of the first two. */
    method PurgeHookRows(cutoff: int, limit: int) returns (hashes: set<Hash>)
      requires Valid()
      modifies this
      ensures Valid() && hashes == Selected(old(View()), cutoff, limit)
      ensures IsOnePass(old(View()), cutoff, limit, hashes)
      ensures View() == Without(old(View()), hashes) && Removed(old(View()), View(), hashes)
      ensures View() == Apply(old(View()), PurgeHook(cutoff, limit))
    {
      hide Sound, Selected, ArtifactsWithout, SourcesWithout, ChunksOf, Mirrored;
      ghost var before := View();
      WithoutIsSound(before, Selected(before, cutoff, limit));
      hashes := Selected(View(), cutoff, limit);
      DeleteChunks(ChunksOf(artifacts, chunks, Selected(View(), cutoff, limit)));
      SelectionIgnoresChunks(before, View(), cutoff, limit);
      sources := SourcesWithout(artifacts, sources, Selected(View(), cutoff, limit));
      artifacts := ArtifactsWithout(artifacts, hashes);
      SelectedIsOnePass(before, cutoff, limit);
      PurgeRemoves(before, hashes);
    }

    /** PurgeOlderThan: sources by age, then chunks and artifacts that nothing refers to. */
    method PurgeOlderThan(cutoff: int) returns (goneSources: int, goneArtifacts: int)
      requires Valid()
      modifies this
      ensures Valid() && View() == OlderPurged(old(View()), cutoff) == Apply(old(View()), PurgeOlder(cutoff))
      ensures goneSources == |old(sources)| - |sources| && goneArtifacts == |old(artifacts)| - |artifacts|
    {
      hide Sound, SourcesSince, ReferredArtifacts, UnreferredChunks, Mirrored;
      OlderPurgedIsSound(View(), cutoff);
      goneSources := DeleteOldSources(cutoff);
      goneArtifacts := DeleteUnreferred();
    }

    method DeleteOldSources(cutoff: int) returns (gone: int)
      modifies this`sources
      ensures sources == SourcesSince(old(sources), cutoff) && gone == |old(sources)| - |sources|
    {
      gone := |sources| - |SourcesSince(sources, cutoff)|;
      sources := SourcesSince(sources, cutoff);
    }

    method DeleteUnreferred() returns (gone: int)
      requires Mirrored()
      modifies this`artifacts, this`chunks, this`fts
      ensures Mirrored() && chunks == old(chunks) - UnreferredChunks(old(artifacts), sources, old(chunks))
      ensures artifacts == ReferredArtifacts(old(artifacts), sources) && gone == |old(artifacts)| - |artifacts|
    {
      hide UnreferredChunks, ReferredArtifacts, Mirrored;
      DeleteChunks(UnreferredChunks(artifacts, sources, chunks));
      gone := |artifacts| - |ReferredArtifacts(artifacts, sources)|;
      artifacts := ReferredArtifacts(artifacts, sources);
    }

    /** The artifact and its chunks, one insert after the other. */
    method InsertArtifact(reg: Registration, marks: bool) returns (id: nat)
      requires Valid() && !Known(View(), reg.content)
      modifies this
      ensures Valid() && View() == WithArtifact(old(View()), reg, marks)
      ensures id in artifacts && artifacts[id] == reg.content
    {
      hide Sound, NextArtifactId, Mirrored;
      ghost var before := View();
      WithArtifactIsSound(before, reg, marks);
      id := NextArtifactId(View());
      artifacts := artifacts[id := reg.content];
      if watermark.Some? && marks {
        NextIdIsLarger(before);
        watermark := Some(Max(watermark.value, id));
      }
      InsertChunks(id, reg.texts);
    }

    method InsertChunks(art: nat, texts: seq<string>)
      requires Mirrored()
      modifies this`chunks, this`fts
      ensures Mirrored() && chunks == WithChunks(old(chunks), art, texts)
    {
      ghost var before := chunks;
      assert WithChunks(before, art, []) == before;
      hide Mirrored, WithChunks;
      assert texts[..0] == [] && texts[..|texts|] == texts;
      var i := 0;
      while i < |texts|
        invariant 0 <= i <= |texts| && Mirrored()
        invariant chunks == WithChunks(before, art, texts[..i])
      {
        OneMoreChunk(before, art, texts, i);
        InsertChunk(Chunk(art, i, texts[i]));
        i := i + 1;
      }
    }

    /** The transaction of Register; a conflict rolls everything back. */
    method Register(reg: Registration, marks: bool) returns (r: Registered)
      requires Valid()
      modifies this
      ensures Valid() && r == RegisterTx(old(View()), reg, marks)
      ensures View() == if r.Conflict? then old(View()) else r.db
      ensures marks ==> View() == Apply(old(View()), Op.Register(reg))
    {
      hide Sound, Mirrored, WithArtifact, Known;
      ghost var before := View();
      var savedArtifacts, savedChunks, savedFts, savedWatermark := artifacts, chunks, fts, watermark;
      WithArtifactIsSound(before, reg, marks);
      var id;
      if Known(View(), reg.content) {
        id := IdOf(View(), reg.content);
        KnownArtifactStays(before, reg, marks);
      } else {
        id := InsertArtifact(reg, marks);
      }
      assert View() == WithArtifact(before, reg, marks);
      IdIsUnique(View(), reg.content, id);
      var source := Source(id, reg.kind, reg.srcHash, reg.raw, reg.at);
      if reg.expected != "" && !(reg.uri in sources && sources[reg.uri].srcHash == reg.expected) {
        artifacts, chunks, fts, watermark := savedArtifacts, savedChunks, savedFts, savedWatermark;
        return Conflict;
      }
      sources := sources[reg.uri := source];
      RegisterTxIsSound(before, reg, marks);
      return Registered(View(), id);
    }
  }

  lemma IdIsUnique(db: Db, content: Artifact, id: nat)
    requires Sound(db) && id in db.artifacts && db.artifacts[id] == content
    ensures Known(db, content) && id == IdOf(db, content)
  {
  }

  lemma KnownArtifactStays(db: Db, reg: Registration, marks: bool)
    requires Known(db, reg.content)
    ensures WithArtifact(db, reg, marks) == db
  {
  }

  lemma OneMoreChunk(chunks: map<nat, Chunk>, art: nat, texts: seq<string>, i: nat)
    requires i < |texts|
    ensures var some := WithChunks(chunks, art, texts[..i]);
      some[Greatest(some.Keys) + 1 := Chunk(art, i, texts[i])] == WithChunks(chunks, art, texts[..i + 1])
  {
    assert texts[..i + 1][..i] == texts[..i];
  }

  lemma NextIdIsLarger(db: Db)
    ensures db.watermark.Some? ==> db.watermark.value < NextArtifactId(db)
  {
  }

  lemma SelectionIgnoresChunks(d: Db, e: Db, cutoff: int, limit: int)
    requires d.artifacts == e.artifacts && d.sources == e.sources
    ensures Selected(d, cutoff, limit) == Selected(e, cutoff, limit)
  {
    assert forall u, h :: Refers(d, u, h) == Refers(e, u, h);
    assert forall h :: ShadowOwned(d, h) == ShadowOwned(e, h);
    assert forall h :: OldEnough(d, h, cutoff) == OldEnough(e, h, cutoff);
    assert Candidates(d, cutoff) == Candidates(e, cutoff);
  }
}
