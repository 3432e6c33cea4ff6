/**
 * The admin post editor (`App\AdminModule\Presenters\PostPresenter`): the
 * edit form's success handler normalises the two date inputs, validates the
 * publication window against the submission instant, and saves exactly the
 * four editable columns; the detail view loads the current post.
 *
 * `new DateTime($text)` is a foreign parser passed in as `parse`; `None`
 * stands for the exception it throws on text it cannot read. One clock
 * reading (`ctx.now`) serves the handler and the save it calls.
 */
module PostEditing {
  import opened Common
  import opened Posts

  /** The submitted form values. */
  datatype EditForm = EditForm(
    key: string,
    published: bool,
    publishedFrom: string,
    publishedTo: string,
    contentCs: string,
    contentEn: string)

  datatype EditError =
    | StartsInFuture  // published now, but the start date lies ahead
    | AlreadyEnded    // published now, but the end date has passed

  datatype EditOutcome =
    /** Form errors; nothing is saved. */
    | Rejected(errors: seq<EditError>)
    /** `new DateTime` threw on a date input. */
    | UnreadableDate
    /** `save` was called; on success the editor is redirected to the dashboard. */
    | Stored(save: SaveOutcome)

  /** A date input: empty (`''` or `'0'`) becomes null, anything else is parsed. */
  function ReadDate(input: string, parse: string -> Option<int>): (r: Result<Option<int>, ()>)
    ensures !Truthy(input) ==> r == Ok(None)
    ensures Truthy(input) ==> (r.Ok? <==> parse(input).Some?)
    ensures Truthy(input) && r.Ok? ==> r.value == parse(input)
  {
    if !Truthy(input) then Ok(None)
    else
      match parse(input)
      case None => Err(())
      case Some(t) => Ok(Some(t))
  }

  /** The validated window: the start date after defaulting, and the errors found. */
  datatype Checked = Checked(from: Option<int>, errors: seq<EditError>)

  /**
   * The checks of the current handler: a published post without a start
   * date starts now; a published post may not start in the future or have
   * already ended.
   */
  function Validate(published: bool, from: Option<int>, to: Option<int>, now: int): (r: Checked)
    ensures !published ==> r == Checked(from, [])
    ensures published && r.errors == [] ==> r.from.Some? && r.from.value <= now && (to.None? || now <= to.value)
    ensures published && from.Some? ==> r.from == from
  {
    var (from1, errors1) :=
      if published then
        if from.None? then (Some(now), [])
        else if from.value > now then (from, [StartsInFuture])
        else (from, [])
      else (from, []);
    var errors2 := if published && to.Some? && to.value < now then errors1 + [AlreadyEnded] else errors1;
    Checked(from1, errors2)
  }

  function DateValue(d: Option<int>): Value {
    match d
    case None => Null
    case Some(t) => Time(t)
  }

  /** The data handed to `save`: the two dates and the two contents, nothing else. */
  function EditData(from: Option<int>, to: Option<int>, form: EditForm): (r: Row)
    ensures r.Keys == {"published_from", "published_to", "content_cs", "content_en"}
    ensures PublishedFrom(r) == from && PublishedTo(r) == to
    ensures r["content_cs"] == Text(form.contentCs) && r["content_en"] == Text(form.contentEn)
  {
    map["published_from" := DateValue(from), "published_to" := DateValue(to),
        "content_cs" := Text(form.contentCs), "content_en" := Text(form.contentEn)]
  }

  /** `postEditFormSuccess`. */
  function PostEditFormSuccess(db: Table, form: EditForm, parse: string -> Option<int>, ctx: SaveContext): (r: EditOutcome)
    ensures r.UnreadableDate? <==> ReadDate(form.publishedFrom, parse).Err? || ReadDate(form.publishedTo, parse).Err?
    ensures r.Rejected? ==> form.published && r.errors != []
  {
    var from := ReadDate(form.publishedFrom, parse);
    var to := ReadDate(form.publishedTo, parse);
    if from.Err? || to.Err? then UnreadableDate
    else
      var checked := Validate(form.published, from.value, to.value, ctx.now);
      if checked.errors != [] then Rejected(checked.errors)
      else Stored(Save(db, form.key, EditData(checked.from, to.value, form), ctx))
  }

  /** The form defaults `renderDetail` fills in from the current post. */
  datatype Defaults = Defaults(key: string, published: bool, from: Option<int>, to: Option<int>, contentCs: Value, contentEn: Value)

  function Column(row: Row, column: string): Value {
    if column in row then row[column] else Null
  }

  /** `renderDetail`: a missing post is a BadRequestException with code 404. */
  function RenderDetail(db: Table, key: string, now: int): (r: Result<Defaults, int>)
    ensures r.Err? <==> (key, Current) !in db
    ensures r.Err? ==> r.error == 404
    ensures r.Ok? ==> r.value.published == IsPublished(db[(key, Current)], now)
    ensures r.Ok? ==> r.value.from == PublishedFrom(db[(key, Current)]) && r.value.to == PublishedTo(db[(key, Current)])
  {
    match GetPostByKey(db, key, false, Current, now)
    case Err(_) => Err(404)
    case Ok(post) =>
      Ok(Defaults(key, post.info.isPublished, PublishedFrom(post.row), PublishedTo(post.row),
                  Column(post.row, "content_cs"), Column(post.row, "content_en")))
  }

  // ---------------------------------------------------------------------------
  // Properties
  // ---------------------------------------------------------------------------

  /**
   * Validation, stated as a table: the start date defaults to now only when
   * published and missing, and each error is raised exactly when its
   * condition holds.
   */
  lemma ValidateCases(published: bool, from: Option<int>, to: Option<int>, now: int)
    ensures var c := Validate(published, from, to, now);
      && c.from == (if published && from.None? then Some(now) else from)
      && (StartsInFuture in c.errors <==> published && from.Some? && from.value > now)
      && (AlreadyEnded in c.errors <==> published && to.Some? && to.value < now)
      && (c.errors == [] <==> !published || ((from.None? || from.value <= now) && (to.None? || to.value >= now)))
  {
  }

  /** A date that cannot be read ends the request before any validation or save. */
  lemma UnreadableDateSavesNothing(db: Table, form: EditForm, parse: string -> Option<int>, ctx: SaveContext)
    requires Truthy(form.publishedFrom) && parse(form.publishedFrom).None?
    ensures PostEditFormSuccess(db, form, parse, ctx) == UnreadableDate
  {
  }

  /**
   * `save` is called exactly when the publication window is acceptable: the
   * flag is clear, or the start date is not ahead of now and the end date not
   * behind it. It is called under the submitted key with the submitted end
   * date, and with the start date defaulted to now only for a published post
   * without one; the `published` flag itself is never stored.
   */
  lemma SaveCalledIffValid(db: Table, form: EditForm, parse: string -> Option<int>, ctx: SaveContext)
    requires ReadDate(form.publishedFrom, parse).Ok? && ReadDate(form.publishedTo, parse).Ok?
    ensures var from := ReadDate(form.publishedFrom, parse).value;
      var to := ReadDate(form.publishedTo, parse).value;
      var r := PostEditFormSuccess(db, form, parse, ctx);
      && (r.Stored? <==> !form.published || ((from.None? || from.value <= ctx.now) && (to.None? || to.value >= ctx.now)))
      && (r.Stored? ==>
            var savedFrom := if form.published && from.None? then Some(ctx.now) else from;
            r.save == Save(db, form.key, EditData(savedFrom, to, form), ctx))
      && (r.Stored? && r.save.Saved? ==>
            var cur := r.save.db[(form.key, Current)];
            && PublishedFrom(cur) == (if form.published && from.None? then Some(ctx.now) else from)
            && PublishedTo(cur) == to
            && ("published" in cur <==> "published" in db[(form.key, Current)]))
  {
    var from := ReadDate(form.publishedFrom, parse).value;
    var to := ReadDate(form.publishedTo, parse).value;
    ValidateCases(form.published, from, to, ctx.now);
    var r := PostEditFormSuccess(db, form, parse, ctx);
    if r.Stored? {
      var savedFrom := if form.published && from.None? then Some(ctx.now) else from;
      assert r.save == Save(db, form.key, EditData(savedFrom, to, form), ctx);
      if r.save.Saved? {
        EditSavesDates(db, form.key, savedFrom, to, form, ctx);
        EditStoresNoFlag(db, form.key, savedFrom, to, form, ctx);
      }
    }
  }

  /** After a save, a column the save does not force holds the submitted value, or keeps the old row's when none was submitted. */
  lemma SavedColumn(db: Table, key: string, data: Row, ctx: SaveContext, c: string)
    requires Save(db, key, data, ctx).Saved?
    requires c != "version" && c != "hash" && c != "created_at" && c != "created_by"
    ensures var cur := Save(db, key, data, ctx).db[(key, Current)];
      && (c in data ==> c in cur && cur[c] == data[c])
      && (c !in data ==> (c in cur <==> c in db[(key, Current)]))
  {
    assert c !in Forced(ctx);
  }

  /** A saved edit stores the two dates it was given. */
  lemma EditSavesDates(db: Table, key: string, from: Option<int>, to: Option<int>, form: EditForm, ctx: SaveContext)
    requires Save(db, key, EditData(from, to, form), ctx).Saved?
    ensures var cur := Save(db, key, EditData(from, to, form), ctx).db[(key, Current)];
      PublishedFrom(cur) == from && PublishedTo(cur) == to
  {
    var data := EditData(from, to, form);
    SavedColumn(db, key, data, ctx, "published_from");
    SavedColumn(db, key, data, ctx, "published_to");
  }

  /** A saved edit adds no `published` column: the flag is never stored. */
  lemma EditStoresNoFlag(db: Table, key: string, from: Option<int>, to: Option<int>, form: EditForm, ctx: SaveContext)
    requires Save(db, key, EditData(from, to, form), ctx).Saved?
    ensures "published" in Save(db, key, EditData(from, to, form), ctx).db[(key, Current)] <==> "published" in db[(key, Current)]
  {
    SavedColumn(db, key, EditData(from, to, form), ctx, "published");
  }


  /** Without the published flag, no date is checked: any readable pair of dates is saved as given. */
  lemma UncheckedIsNotValidated(db: Table, form: EditForm, parse: string -> Option<int>, ctx: SaveContext)
    requires !form.published
    requires ReadDate(form.publishedFrom, parse).Ok? && ReadDate(form.publishedTo, parse).Ok?
    ensures PostEditFormSuccess(db, form, parse, ctx) ==
      Stored(Save(db, form.key, EditData(ReadDate(form.publishedFrom, parse).value, ReadDate(form.publishedTo, parse).value, form), ctx))
  {
  }

  /**
   * A successful save with the published flag leaves a current post that is
   * published at the submission instant, and the public published-only
   * lookup finds it.
   */
  lemma PublishNowIsPublished(db: Table, form: EditForm, parse: string -> Option<int>, ctx: SaveContext)
    requires form.published
    requires PostEditFormSuccess(db, form, parse, ctx).Stored?
    requires PostEditFormSuccess(db, form, parse, ctx).save.Saved?
    ensures var saved := PostEditFormSuccess(db, form, parse, ctx).save.db;
      && IsPublished(saved[(form.key, Current)], ctx.now)
      && GetPostByKey(saved, form.key, true, Current, ctx.now).Ok?
  {
    var from := ReadDate(form.publishedFrom, parse).value;
    var to := ReadDate(form.publishedTo, parse).value;
    var c := Validate(form.published, from, to, ctx.now);
    ValidateCases(form.published, from, to, ctx.now);
    var data := EditData(c.from, to, form);
    SavedPublication(db, form.key, data, ctx, ctx.now);
  }

  /**
   * Clearing the flag does not unpublish: an unchecked form whose start date
   * lies in the past and which has no end date is still saved as published.
   */
  lemma UncheckedPastStartStaysPublished(db: Table, form: EditForm, parse: string -> Option<int>, ctx: SaveContext)
    requires !form.published
    requires Truthy(form.publishedFrom) && parse(form.publishedFrom).Some? && parse(form.publishedFrom).value <= ctx.now
    requires !Truthy(form.publishedTo)
    requires PostEditFormSuccess(db, form, parse, ctx).Stored? && PostEditFormSuccess(db, form, parse, ctx).save.Saved?
    ensures IsPublished(PostEditFormSuccess(db, form, parse, ctx).save.db[(form.key, Current)], ctx.now)
  {
    var data := EditData(parse(form.publishedFrom), None, form);
    SavedPublication(db, form.key, data, ctx, ctx.now);
  }

  /** The detail view fails with 404 exactly when there is no current row; a published-only miss (403) cannot happen there. */
  lemma RenderDetailNotFound(db: Table, key: string, now: int)
    ensures RenderDetail(db, key, now).Err? <==> GetPostByKey(db, key, false, Current, now).Err?
    ensures GetPostByKey(db, key, false, Current, now).Err? ==> GetPostByKey(db, key, false, Current, now).error == 404
  {
  }
}
