/**
 * The post store (`App\Model\Post`): posts live in one table whose rows are
 * identified by a post key and a version; the version `'current'` is the
 * live row and every save appends a copy of it stamped with the save time.
 * Both generations of the class run the same statements, so this one model
 * serves both.
 *
 * A row is a column => value map, as `ActiveRow::toArray` gives it. Dates
 * are seconds on one clock; a date column holds a DateTime or null, and a
 * request reads the clock once (`now`).
 */
module Posts {
  import opened Common

  datatype Value = Null | Text(s: string) | Int(i: int) | Time(t: int)

  type Row = map<string, Value>

  /** `(key, version)`: the columns the lookups filter on. */
  type PostId = (string, string)

  type Table = map<PostId, Row>

  const Current: string := "current"

  /** Each row's `key` and `version` columns agree with the pair it is stored under. */
  ghost predicate WellKeyed(db: Table) {
    forall id :: id in db ==> "key" in db[id] && db[id]["key"] == Text(id.0) && "version" in db[id] && db[id]["version"] == Text(id.1)
  }

  /** A date column: the DateTime it holds, or nothing for null or a missing column. */
  function DateColumn(row: Row, column: string): Option<int> {
    if column in row && row[column].Time? then Some(row[column].t) else None
  }

  function PublishedFrom(row: Row): Option<int> {
    DateColumn(row, "published_from")
  }

  function PublishedTo(row: Row): Option<int> {
    DateColumn(row, "published_to")
  }

  /** `isPlanned`: a start date lies in the future. */
  predicate IsPlanned(row: Row, now: int)
    ensures IsPlanned(row, now) <==> "published_from" in row && row["published_from"].Time? && now < row["published_from"].t
  {
    PublishedFrom(row).Some? && PublishedFrom(row).value > now
  }

  /** `isExpired`: an end date lies in the past. */
  predicate IsExpired(row: Row, now: int)
    ensures IsExpired(row, now) <==> "published_to" in row && row["published_to"].Time? && row["published_to"].t < now
  {
    PublishedTo(row).Some? && PublishedTo(row).value < now
  }

  /** `isPublished`: a start date is set and the post is neither planned nor expired. */
  predicate IsPublished(row: Row, now: int)
    ensures IsPublished(row, now) <==>
      && "published_from" in row && row["published_from"].Time? && row["published_from"].t <= now
      && !("published_to" in row && row["published_to"].Time? && row["published_to"].t < now)
  {
    PublishedFrom(row).Some? && !IsPlanned(row, now) && !IsExpired(row, now)
  }

  datatype Info = Info(isPublished: bool, isPlanned: bool, isExpired: bool)

  /** A row as `preparePost` returns it: the columns plus the derived `info`. */
  datatype Prepared = Prepared(row: Row, info: Info)

  function PreparePost(row: Row, now: int): (r: Prepared)
    ensures r.row == row
    ensures r.info.isPublished ==> !r.info.isPlanned && !r.info.isExpired
    ensures r.info.isPublished <==> PublishedFrom(row).Some? && PublishedFrom(row).value <= now && (PublishedTo(row).None? || PublishedTo(row).value >= now)
  {
    Prepared(row, Info(IsPublished(row, now), IsPlanned(row, now), IsExpired(row, now)))
  }

  /**
   * `getPostByKey`: a missing `(key, version)` row is a PostNotFoundException
   * with code 404; an unpublished one, when only published posts are asked
   * for, has code 403.
   */
  function GetPostByKey(db: Table, key: string, publishedOnly: bool, version: string, now: int): (r: Result<Prepared, int>)
    ensures r.Ok? <==> (key, version) in db && (!publishedOnly || IsPublished(db[(key, version)], now))
    ensures r.Ok? ==> r.value.row == db[(key, version)]
    ensures r.Err? ==> r.error == if (key, version) in db then 403 else 404
  {
    if (key, version) !in db then Err(404)
    else
      var post := PreparePost(db[(key, version)], now);
      if publishedOnly && !post.info.isPublished then Err(403) else Ok(post)
  }

  /** `tryFindPostByKey`: the post, or null whenever `getPostByKey` throws. */
  function TryFindPostByKey(db: Table, key: string, publishedOnly: bool, version: string, now: int): (r: Option<Prepared>)
    ensures r.None? <==> GetPostByKey(db, key, publishedOnly, version, now).Err?
    ensures r.Some? ==> r.value == GetPostByKey(db, key, publishedOnly, version, now).value
  {
    match GetPostByKey(db, key, publishedOnly, version, now)
    case Ok(p) => Some(p)
    case Err(_) => None
  }

  /** `$post['key']` used as an array key: the key column's string, `''` when it is null or missing. */
  function KeyOf(row: Row): string {
    if "key" in row && row["key"].Text? then row["key"].s else ""
  }

  predicate Kept(row: Row, publishedOnly: bool, now: int) {
    !publishedOnly || IsPublished(row, now)
  }

  /**
   * `getPosts`: walk the selected rows in order and store each kept one under
   * its key column; a later row with the same key replaces an earlier one.
   */
  function GetPosts(selection: seq<Row>, publishedOnly: bool, now: int): (r: map<string, Prepared>)
    ensures forall k :: k in r ==> KeyOf(r[k].row) == k && Kept(r[k].row, publishedOnly, now) && r[k].row in selection
  {
    if selection == [] then map[]
    else
      var last := |selection| - 1;
      var posts := GetPosts(selection[..last], publishedOnly, now);
      var post := PreparePost(selection[last], now);
      if publishedOnly && !post.info.isPublished then posts else posts[KeyOf(selection[last]) := post]
  }

  /** The rows a version selects, each once and with pairwise distinct keys. */
  ghost predicate IsSelection(db: Table, version: string, selection: seq<Row>) {
    && (forall i :: 0 <= i < |selection| ==> (KeyOf(selection[i]), version) in db && db[(KeyOf(selection[i]), version)] == selection[i])
    && (forall i, j :: 0 <= i < j < |selection| ==> KeyOf(selection[i]) != KeyOf(selection[j]))
    && (forall id :: id in db && id.1 == version ==> exists i :: 0 <= i < |selection| && KeyOf(selection[i]) == id.0)
  }

  /** The keys `getPosts` returns are those of the kept rows. */
  lemma {:induction false} GetPostsKeys(selection: seq<Row>, publishedOnly: bool, now: int, k: string)
    ensures k in GetPosts(selection, publishedOnly, now) <==>
      exists i :: 0 <= i < |selection| && Kept(selection[i], publishedOnly, now) && KeyOf(selection[i]) == k
  {
    if selection != [] {
      var last := |selection| - 1;
      var init := selection[..last];
      GetPostsKeys(init, publishedOnly, now, k);
      assert forall i :: 0 <= i < last ==> init[i] == selection[i];
    }
  }

  /** With distinct keys, every kept row is stored, prepared, under its own key. */
  lemma {:induction false} GetPostsValue(selection: seq<Row>, publishedOnly: bool, now: int, i: int)
    requires forall a, b :: 0 <= a < b < |selection| ==> KeyOf(selection[a]) != KeyOf(selection[b])
    requires 0 <= i < |selection| && Kept(selection[i], publishedOnly, now)
    ensures KeyOf(selection[i]) in GetPosts(selection, publishedOnly, now)
    ensures GetPosts(selection, publishedOnly, now)[KeyOf(selection[i])] == PreparePost(selection[i], now)
  {
    var last := |selection| - 1;
    if i < last {
      var init := selection[..last];
      assert init[i] == selection[i];
      GetPostsValue(init, publishedOnly, now, i);
    }
  }

  /**
   * `getPosts` agrees with `getPostByKey`: a key is listed exactly when the
   * single lookup succeeds, and with the same post.
   */
  lemma GetPostsAgrees(db: Table, version: string, selection: seq<Row>, publishedOnly: bool, now: int, k: string)
    requires IsSelection(db, version, selection)
    ensures k in GetPosts(selection, publishedOnly, now) <==> GetPostByKey(db, k, publishedOnly, version, now).Ok?
    ensures k in GetPosts(selection, publishedOnly, now) ==>
      GetPosts(selection, publishedOnly, now)[k] == GetPostByKey(db, k, publishedOnly, version, now).value
  {
    GetPostsKeys(selection, publishedOnly, now, k);
    if (k, version) in db {
      var i :| 0 <= i < |selection| && KeyOf(selection[i]) == k;
      if Kept(selection[i], publishedOnly, now) {
        GetPostsValue(selection, publishedOnly, now, i);
      }
    }
  }

  /** What a save takes from outside the table: the random hash, the clock, the signed-in user, the time stamp text. */
  datatype SaveContext = SaveContext(hash: string, now: int, userId: Value, stamp: string)

  /** The columns `save` forces; PHP's `+` keeps them over the caller's. */
  function Forced(ctx: SaveContext): Row {
    map["version" := Text(Current), "hash" := Text(ctx.hash), "created_at" := Time(ctx.now), "created_by" := ctx.userId]
  }

  datatype SaveOutcome =
    | Saved(db: Table, copy: Row)
    /** No current row: the update touches nothing and `fetch()` returns null. */
    | NoCurrentRow
    /**
     * The data renames the row: the update has already moved the current row
     * to the new key, so the re-fetch by the old key finds nothing and
     * `fetch()->toArray()` fails; `db` is the table the update left behind.
     */
    | KeyRewritten(db: Table)
    /** A row versioned with this stamp exists; the current row is already updated. */
    | DuplicateVersion(db: Table)

  /**
   * The table after an update whose data names another key: the current row,
   * updated, now sits under the new key (the key column's string, `''` for a
   * value that is not a string).
   */
  function Renamed(db: Table, key: string, data: Row, ctx: SaveContext): (r: Table)
    requires (key, Current) in db && "key" in data
    ensures var moved := (KeyOf(data), Current);
      && moved in r && r.Keys == db.Keys - {(key, Current)} + {moved}
      && "key" in r[moved] && r[moved]["key"] == data["key"]
      && (forall c :: c in Forced(ctx) ==> c in r[moved] && r[moved][c] == Forced(ctx)[c])
      && (forall c :: c in db[(key, Current)] && c !in data && c !in Forced(ctx) ==> c in r[moved] && r[moved][c] == db[(key, Current)][c])
      && (forall id :: id in db && id != (key, Current) && id != moved ==> r[id] == db[id])
    ensures data["key"] != Text(key) && data["key"].Text? ==> (key, Current) !in r
  {
    var id := (key, Current);
    (db - {id})[(KeyOf(data), Current) := db[id] + (data + Forced(ctx))]
  }

  /**
   * `save`: update the current row with the caller's columns under the forced
   * ones, then insert a copy of it versioned by the save time, and return
   * that copy.
   */
  function Save(db: Table, key: string, data: Row, ctx: SaveContext): (r: SaveOutcome)
    ensures r.NoCurrentRow? <==> (key, Current) !in db
    ensures r.KeyRewritten? <==> (key, Current) in db && "key" in data && data["key"] != Text(key)
    ensures r.KeyRewritten? ==> r.db == Renamed(db, key, data, ctx)
    ensures r.Saved? <==> (key, Current) in db && !("key" in data && data["key"] != Text(key)) && (key, ctx.stamp) !in db
    ensures r.DuplicateVersion? ==>
      && (key, Current) in db && (key, ctx.stamp) in db && r.db.Keys == db.Keys
      && r.db[(key, Current)] == db[(key, Current)] + (data + Forced(ctx))
      && (forall id :: id in db && id != (key, Current) ==> r.db[id] == db[id])
    ensures r.Saved? ==> (key, Current) in db && r.db.Keys == db.Keys + {(key, ctx.stamp)} && (key, ctx.stamp) !in db
    ensures r.Saved? ==>
      var cur := r.db[(key, Current)];
      && (forall id :: id in db && id != (key, Current) ==> r.db[id] == db[id])
      && r.copy == r.db[(key, ctx.stamp)]
      && r.copy == cur["version" := Text(ctx.stamp)]
      && (forall c :: c in Forced(ctx) ==> c in cur && cur[c] == Forced(ctx)[c])
      && (forall c :: c in data && c !in Forced(ctx) ==> c in cur && cur[c] == data[c])
      && (forall c :: c in db[(key, Current)] && c !in data && c !in Forced(ctx) ==> c in cur && cur[c] == db[(key, Current)][c])
      && cur.Keys == db[(key, Current)].Keys + data.Keys + Forced(ctx).Keys
  {
    var id := (key, Current);
    if id !in db then NoCurrentRow
    else if "key" in data && data["key"] != Text(key) then KeyRewritten(Renamed(db, key, data, ctx))
    else
      var updated := db[id] + (data + Forced(ctx));
      var db1 := db[id := updated];
      var copy := updated["version" := Text(ctx.stamp)];
      if (key, ctx.stamp) in db1 then DuplicateVersion(db1)
      else Saved(db1[(key, ctx.stamp) := copy], copy)
  }

  // ---------------------------------------------------------------------------
  // Properties
  // ---------------------------------------------------------------------------

  /** Time only moves a post out of the planned state: planned at `now` means planned at every earlier instant. */
  lemma PlannedEarlier(row: Row, now: int, earlier: int)
    requires IsPlanned(row, now) && earlier <= now
    ensures IsPlanned(row, earlier)
    ensures !IsPublished(row, earlier) && !IsPublished(row, now)
  {
  }

  /** Time only moves a post into the expired state: expired at `now` means expired at every later instant. */
  lemma ExpiredLater(row: Row, now: int, later: int)
    requires IsExpired(row, now) && later >= now
    ensures IsExpired(row, later)
    ensures !IsPublished(row, later) && !IsPublished(row, now)
  {
  }

  /**
   * With a start date and no end before it, a post is in exactly one of the
   * three states at every instant: planned before the start, published from
   * the start through the end, expired after the end.
   */
  lemma ConsistentWindowOneState(row: Row, now: int)
    requires PublishedFrom(row).Some?
    requires PublishedTo(row).None? || PublishedTo(row).value >= PublishedFrom(row).value
    ensures IsPlanned(row, now) <==> now < PublishedFrom(row).value
    ensures IsExpired(row, now) <==> PublishedTo(row).Some? && PublishedTo(row).value < now
    ensures IsPlanned(row, now) || IsPublished(row, now) || IsExpired(row, now)
    ensures !(IsPlanned(row, now) && IsPublished(row, now))
    ensures !(IsPublished(row, now) && IsExpired(row, now))
    ensures !(IsPlanned(row, now) && IsExpired(row, now))
  {
  }

  /**
   * `isPublished` holds exactly when the window `[from, to]` is open at now:
   * a start date at or before now and no end date before now.
   */
  lemma PublishedIff(row: Row, now: int)
    ensures IsPublished(row, now) <==>
      exists from :: PublishedFrom(row) == Some(from) && from <= now && (PublishedTo(row).None? || PublishedTo(row).value >= now)
  {
    if IsPublished(row, now) {
      assert PublishedFrom(row) == Some(PublishedFrom(row).value);
    }
  }

  /** Without a start date a post is neither published nor planned, whatever its end date. */
  lemma NoStartNeverPublished(row: Row, now: int)
    requires PublishedFrom(row).None?
    ensures !IsPublished(row, now) && !IsPlanned(row, now)
  {
  }

  /** Published excludes planned and expired; planned and expired hold together when `to < now < from`. */
  lemma PublicationStates(row: Row, now: int)
    ensures IsPublished(row, now) ==> !IsPlanned(row, now) && !IsExpired(row, now)
    ensures IsPlanned(row, now) && IsExpired(row, now) <==>
      PublishedFrom(row).Some? && PublishedTo(row).Some? && PublishedTo(row).value < now < PublishedFrom(row).value
  {
  }

  /** Storing a row whose `key` and `version` columns match the pair it goes under keeps the table well keyed. */
  lemma StoreKeepsWellKeyed(db: Table, id: PostId, row: Row)
    requires WellKeyed(db)
    requires "key" in row && row["key"] == Text(id.0) && "version" in row && row["version"] == Text(id.1)
    ensures WellKeyed(db[id := row])
  {
    var db1 := db[id := row];
    forall id1 | id1 in db1
      ensures "key" in db1[id1] && db1[id1]["key"] == Text(id1.0) && "version" in db1[id1] && db1[id1]["version"] == Text(id1.1)
    {
      if id1 != id {
        assert db1[id1] == db[id1];
      }
    }
  }

  /** A save keeps every row's `key` and `version` columns in line with its identity. */
  lemma SavePreservesWellKeyed(db: Table, key: string, data: Row, ctx: SaveContext)
    requires WellKeyed(db)
    ensures Save(db, key, data, ctx).Saved? ==> WellKeyed(Save(db, key, data, ctx).db)
    ensures Save(db, key, data, ctx).DuplicateVersion? ==> WellKeyed(Save(db, key, data, ctx).db)
    ensures Save(db, key, data, ctx).KeyRewritten? && data["key"].Text? ==> WellKeyed(Save(db, key, data, ctx).db)
  {
    var id := (key, Current);
    if id in db && "key" in data && data["key"] != Text(key) && data["key"].Text? {
      var updated := db[id] + (data + Forced(ctx));
      assert updated["key"] == Text(KeyOf(data));
      assert updated["version"] == Text(Current);
      var rest := db - {id};
      assert WellKeyed(rest) by {
        forall id1 | id1 in rest
          ensures "key" in rest[id1] && rest[id1]["key"] == Text(id1.0) && "version" in rest[id1] && rest[id1]["version"] == Text(id1.1)
        {
          assert rest[id1] == db[id1];
        }
      }
      StoreKeepsWellKeyed(rest, (KeyOf(data), Current), updated);
    }
    if id in db && !("key" in data && data["key"] != Text(key)) {
      var updated := db[id] + (data + Forced(ctx));
      assert updated["key"] == Text(key);
      assert updated["version"] == Text(Current);
      StoreKeepsWellKeyed(db, id, updated);
      var db1 := db[id := updated];
      var copy := updated["version" := Text(ctx.stamp)];
      StoreKeepsWellKeyed(db1, (key, ctx.stamp), copy);
    }
  }

  /**
   * After a save, the current post is the updated row and the returned copy
   * is found under its time stamp, both differing only in `version`.
   */
  lemma SaveThenGet(db: Table, key: string, data: Row, ctx: SaveContext, now: int)
    requires Save(db, key, data, ctx).Saved?
    ensures var r := Save(db, key, data, ctx);
      && GetPostByKey(r.db, key, false, Current, now).Ok?
      && GetPostByKey(r.db, key, false, ctx.stamp, now) == Ok(PreparePost(r.copy, now))
      && GetPostByKey(r.db, key, false, Current, now).value.row == r.copy["version" := Text(Current)]
  {
    var r := Save(db, key, data, ctx);
    var cur := r.db[(key, Current)];
    assert "version" in cur;
    assert cur == r.copy["version" := Text(Current)];
  }

  /** The publication state of the saved post follows from the saved dates alone. */
  lemma SavedPublication(db: Table, key: string, data: Row, ctx: SaveContext, now: int)
    requires Save(db, key, data, ctx).Saved?
    requires "published_from" in data && "published_to" in data
    ensures var r := Save(db, key, data, ctx);
      IsPublished(r.db[(key, Current)], now) == IsPublished(data, now)
  {
  }
}
