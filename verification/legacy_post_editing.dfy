/**
 * The legacy admin post editor (lower-case `app/AdminModule/presenters`). Its
 * success handler tests the published flag in an `if`/`elseif` chain instead
 * of a nested `if`, and otherwise runs the same steps as the current one.
 */
module LegacyPostEditing {
  import opened Common
  import opened Posts
  import opened PostEditing

  /** The legacy checks: default the start date, else reject a future start; then reject a past end. */
  function LegacyValidate(published: bool, from: Option<int>, to: Option<int>, now: int): (r: Checked)
    ensures !published ==> r == Checked(from, [])
    ensures published && r.errors == [] ==> r.from.Some? && r.from.value <= now && (to.None? || now <= to.value)
    ensures published && from.Some? ==> r.from == from
  {
    var first :=
      if published && from.None? then Checked(Some(now), [])
      else if published && from.Some? && from.value > now then Checked(from, [StartsInFuture])
      else Checked(from, []);
    if published && to.Some? && to.value < now then first.(errors := first.errors + [AlreadyEnded]) else first
  }

  /** The legacy `postEditFormSuccess`. */
  function LegacyPostEditFormSuccess(db: Table, form: EditForm, parse: string -> Option<int>, ctx: SaveContext): (r: EditOutcome)
    ensures r.UnreadableDate? <==> ReadDate(form.publishedFrom, parse).Err? || ReadDate(form.publishedTo, parse).Err?
    ensures r.Rejected? ==> form.published && r.errors != []
  {
    var from := ReadDate(form.publishedFrom, parse);
    var to := ReadDate(form.publishedTo, parse);
    if from.Err? || to.Err? then UnreadableDate
    else
      var checked := LegacyValidate(form.published, from.value, to.value, ctx.now);
      if checked.errors != [] then Rejected(checked.errors)
      else Stored(Save(db, form.key, EditData(checked.from, to.value, form), ctx))
  }

  /**
   * The legacy chain raises the same errors in the same order, and defaults
   * the start date the same way, as the current nested checks.
   */
  lemma ValidateGenerationsAgree(published: bool, from: Option<int>, to: Option<int>, now: int)
    ensures LegacyValidate(published, from, to, now) == Validate(published, from, to, now)
  {
  }

  /** Both generations of the edit handler end every submission the same way. */
  lemma EditGenerationsAgree(db: Table, form: EditForm, parse: string -> Option<int>, ctx: SaveContext)
    ensures LegacyPostEditFormSuccess(db, form, parse, ctx) == PostEditFormSuccess(db, form, parse, ctx)
  {
    var from := ReadDate(form.publishedFrom, parse);
    var to := ReadDate(form.publishedTo, parse);
    if from.Ok? && to.Ok? {
      ValidateGenerationsAgree(form.published, from.value, to.value, ctx.now);
    }
  }

  /** Any legacy validation error returns before `save`. */
  lemma LegacyErrorsSaveNothing(db: Table, form: EditForm, parse: string -> Option<int>, ctx: SaveContext)
    requires ReadDate(form.publishedFrom, parse).Ok? && ReadDate(form.publishedTo, parse).Ok?
    requires LegacyValidate(form.published, ReadDate(form.publishedFrom, parse).value, ReadDate(form.publishedTo, parse).value, ctx.now).errors != []
    ensures LegacyPostEditFormSuccess(db, form, parse, ctx).Rejected?
  {
  }
}
