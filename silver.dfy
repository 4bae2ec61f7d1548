/**
 * The five silver-layer transform chains, one per dataset, each applied to
 * the batch the bronze-layer stream delivers before it is appended to its
 * silver table.
 */
module Silver {
  import opened Tables
  import opened Transforms

  /** The quarantine column Autoloader adds for data that did not fit the schema. */
  const RescuedData := "_rescued_data"

  const UserName := "user_name"
  const UserId := "user_id"
  const ArtistId := "artist_id"
  const DurationSec := "duration_sec"
  const DurationFlag := "duration_flag"
  const TrackName := "track_name"

  /** `out` is `src` without the quarantine column. */
  predicate IsEvicted(src: Row, out: Row) {
    SameOutside(src, out, {RescuedData}) && RescuedData !in out
  }

  /** `out` is `src` with user_name upper-cased and the quarantine column removed. */
  predicate IsCleanUser(src: Row, out: Row) {
    && SameOutside(src, out, {UserName, RescuedData})
    && RescuedData !in out
    && UserName in src && UserName in out && out[UserName] == UpperValue(src[UserName])
  }

  /**
   * `out` is `src` with a duration_flag label added, every hyphen in track_name
   * turned into a space, and the quarantine column removed.
   */
  predicate IsCleanTrack(src: Row, out: Row) {
    && SameOutside(src, out, {DurationFlag, TrackName, RescuedData})
    && RescuedData !in out
    && DurationSec in src && DurationFlag in out
    && out[DurationFlag] == FlagValue(src[DurationSec])
    && TrackName in src && TrackName in out
    && out[TrackName] == ReplaceValue(src[TrackName], '-', ' ')
  }

  /**
   * `dropColumns(df, ['_rescued_data'])`, used by every dataset: last in
   * DimTrack, before deduplication in DimUser and DimArtist, alone in DimDate
   * and FactStream. The quarantine column leaves the schema and every row,
   * and the rows keep their number, order and every other cell.
   */
  function EvictRescued(t: Table): (r: Table)
    requires WellFormed(t)
    ensures WellFormed(r) && r.schema == t.schema - {RescuedData}
    ensures |r.rows| == |t.rows|
    ensures forall i :: 0 <= i < |t.rows| ==> IsEvicted(t.rows[i], r.rows[i])
  {
    assert NameSet([RescuedData]) == {RescuedData};
    DropColumns(t, [RescuedData])
  }

  /** A batch without the quarantine column passes through unchanged. */
  lemma EvictRescuedAbsent(t: Table)
    requires WellFormed(t) && RescuedData !in t.schema
    ensures EvictRescued(t) == t
  {
    DropAbsentIsNoOp(t, [RescuedData]);
  }

  // ---------------------------------------------------------------- DimUser

  /** DimUser: upper-case user_name, drop the quarantine column, deduplicate on user_id. */
  function UserPipeline(t: Table): (r: Result<Table>)
    requires WellFormed(t)
    ensures r.Ok? <==> UserName in t.schema && UserId in t.schema
    ensures UserName !in t.schema ==> r == Err(UnresolvedColumn(UserName))
    ensures UserName in t.schema && UserId !in t.schema ==> r == Err(UnresolvedColumn(UserId))
    ensures r.Ok? ==> WellFormed(r.value) && r.value.schema == t.schema - {RescuedData}
  {
    var upper :- UpperCol(t, UserName);
    DedupByKey(EvictRescued(upper), UserId)
  }

  /** The rows DimUser deduplicates: each input row cleaned, its user_id untouched. */
  lemma CleanedUsers(t: Table)
    requires WellFormed(t) && UserName in t.schema
    ensures var d := EvictRescued(UpperCol(t, UserName).value);
      && |d.rows| == |t.rows|
      && (forall j :: 0 <= j < |t.rows| ==> IsCleanUser(t.rows[j], d.rows[j]))
      && (UserId in t.schema ==> forall j :: 0 <= j < |t.rows| ==> UserId in d.rows[j] && d.rows[j][UserId] == t.rows[j][UserId])
  {
    var upper := UpperCol(t, UserName).value;
    var dropped := EvictRescued(upper);
    forall j | 0 <= j < |t.rows| ensures IsCleanUser(t.rows[j], dropped.rows[j]) {
      SameOutsideTrans(t.rows[j], upper.rows[j], dropped.rows[j], {UserName}, {RescuedData});
    }
  }

  /**
   * A DimUser run keeps one cleaned input row per user_id, and since neither
   * the upper-casing nor the drop touches user_id, every input user_id survives.
   */
  lemma UserPipelineSpec(t: Table)
    requires WellFormed(t) && UserPipeline(t).Ok?
    ensures HasKey(t.rows, UserId)
    ensures var out := UserPipeline(t).value.rows;
      && HasKey(out, UserId)
      && KeysUnique(out, UserId)
      && KeySet(out, UserId) == KeySet(t.rows, UserId)
      && |out| == |KeySet(t.rows, UserId)| <= |t.rows|
      && forall i :: 0 <= i < |out| ==> ComesFrom(out[i], t.rows, IsCleanUser)
  {
    var dropped := EvictRescued(UpperCol(t, UserName).value);
    CleanedUsers(t);
    assert UserPipeline(t) == DedupByKey(dropped, UserId);
    DedupByKeySpec(dropped, UserId);
    KeySetPointwise(dropped.rows, t.rows, UserId);
    SurvivorsComeFrom(t.rows, dropped.rows, DedupByKey(dropped, UserId).value.rows, IsCleanUser);
  }

  // ---------------------------------------------------------------- DimArtist

  /** DimArtist: drop the quarantine column, deduplicate on artist_id. */
  function ArtistPipeline(t: Table): (r: Result<Table>)
    requires WellFormed(t)
    ensures r.Ok? <==> ArtistId in t.schema
    ensures r.Err? ==> r.error == UnresolvedColumn(ArtistId)
    ensures r.Ok? ==> WellFormed(r.value) && r.value.schema == t.schema - {RescuedData}
  {
    DedupByKey(EvictRescued(t), ArtistId)
  }

  /** A DimArtist run keeps exactly one evicted input row per artist_id. */
  lemma ArtistPipelineSpec(t: Table)
    requires WellFormed(t) && ArtistPipeline(t).Ok?
    ensures HasKey(t.rows, ArtistId)
    ensures var out := ArtistPipeline(t).value.rows;
      && HasKey(out, ArtistId)
      && KeysUnique(out, ArtistId)
      && KeySet(out, ArtistId) == KeySet(t.rows, ArtistId)
      && |out| == |KeySet(t.rows, ArtistId)| <= |t.rows|
      && forall i :: 0 <= i < |out| ==> ComesFrom(out[i], t.rows, IsEvicted)
  {
    var dropped := EvictRescued(t);
    DedupByKeySpec(dropped, ArtistId);
    KeySetPointwise(dropped.rows, t.rows, ArtistId);
    SurvivorsComeFrom(t.rows, dropped.rows, DedupByKey(dropped, ArtistId).value.rows, IsEvicted);
  }

  // ---------------------------------------------------------------- DimTrack

  /**
   * DimTrack: label duration_sec into duration_flag, replace every hyphen in
   * track_name with a space, drop the quarantine column. No deduplication.
   */
  function TrackPipeline(t: Table): (r: Result<Table>)
    requires WellFormed(t)
    ensures r.Ok? <==> DurationSec in t.schema && TrackName in t.schema && !HasStringCell(t, DurationSec)
    ensures DurationSec !in t.schema ==> r == Err(UnresolvedColumn(DurationSec))
    ensures DurationSec in t.schema && HasStringCell(t, DurationSec) ==> r == Err(NotComparable(DurationSec))
    ensures r.Ok? ==> WellFormed(r.value) && r.value.schema == (t.schema + {DurationFlag}) - {RescuedData}
    ensures r.Ok? ==> |r.value.rows| == |t.rows|
    ensures r.Ok? ==> forall i :: 0 <= i < |t.rows| ==> IsCleanTrack(t.rows[i], r.value.rows[i])
  {
    var flagged :- BucketDuration(t, DurationSec, DurationFlag);
    var renamed :- ReplaceChar(flagged, TrackName, '-', ' ');
    Ok(EvictRescued(renamed))
  }

  /** Running DimTrack over its own output changes nothing. */
  lemma TrackPipelineIdempotent(t: Table)
    requires WellFormed(t) && TrackPipeline(t).Ok?
    ensures TrackPipeline(TrackPipeline(t).value) == TrackPipeline(t)
  {
    var once := TrackPipeline(t).value;
    assert !HasStringCell(once, DurationSec);
    var twice := TrackPipeline(once).value;
    forall i | 0 <= i < |once.rows| ensures twice.rows[i] == once.rows[i] {
      ReplaceValueIdempotent(t.rows[i][TrackName], '-', ' ');
      assert twice.rows[i].Keys == once.rows[i].Keys;
      forall k | k in once.rows[i] ensures twice.rows[i][k] == once.rows[i][k] {
      }
    }
    assert twice.rows == once.rows;
    assert twice.schema == once.schema;
    assert twice == once;
  }

  // ---------------------------------------------------------------- DimDate and FactStream

  /** DimDate: the eviction of the quarantine column and nothing else. */
  function DatePipeline(t: Table): (r: Table)
    requires WellFormed(t)
    ensures r == EvictRescued(t)
  {
    EvictRescued(t)
  }

  /** FactStream: the eviction of the quarantine column and nothing else. */
  function FactPipeline(t: Table): (r: Table)
    requires WellFormed(t)
    ensures r == EvictRescued(t)
  {
    EvictRescued(t)
  }
}
