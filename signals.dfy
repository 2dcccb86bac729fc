/** The post-save hook (gallery/signals.py): the backstop runs for a new Photo without a thumbnail. */
module Signals {
  import opened Wrappers
  import opened Models
  import opened Imaging
  import opened Store
  import opened Tasks

  /** `created and not instance.thumbnail`. */
  predicate ShouldGenerate(created: bool, instance: Photo)
    ensures !created ==> !ShouldGenerate(created, instance)
    ensures created ==> (ShouldGenerate(created, instance) <==> instance.thumbnail == "")
  {
    created && instance.thumbnail == ""
  }

  /** The hook's effect: nothing, or exactly one run of the job for the instance's own id. */
  function PostSave(db: Db, id: nat, instance: Photo, created: bool, codec: Codec, today: Date): (r: (Option<TaskOutcome>, Db))
    requires Consistent(db)
    ensures Consistent(r.1)
    ensures r.0.None? <==> !ShouldGenerate(created, instance)
    ensures r.0.None? ==> r.1 == db
    ensures r.0.Some? ==> (r.0.value, r.1) == ThumbnailTask(db, id, codec, today)
  {
    if ShouldGenerate(created, instance) then
      var (outcome, after) := ThumbnailTask(db, id, codec, today);
      (Some(outcome), after)
    else (None, db)
  }

  /** An update save never starts the job, even for a photo that has no thumbnail. */
  lemma UpdateSaveNeverGenerates(db: Db, id: nat, instance: Photo, codec: Codec, today: Date)
    requires Consistent(db)
    ensures PostSave(db, id, instance, false, codec, today) == (None, db)
  {
  }

  /** The hook touches only the saved row and the backstop's thumbnail file. */
  lemma PostSaveFrame(db: Db, id: nat, instance: Photo, created: bool, codec: Codec, today: Date)
    requires Consistent(db) && id in db.rows
    ensures var after := PostSave(db, id, instance, created, codec, today).1;
            && after.nextId == db.nextId && after.rows.Keys == db.rows.Keys
            && (forall other :: other in db.rows && other != id ==> after.rows[other] == db.rows[other])
            && forall name ::
                 name in db.files && name != UploadTo(ThumbnailsDir, today, BackstopThumbName(db.rows[id].image)) ==>
                   name in after.files && after.files[name] == db.files[name]
  {
    if ShouldGenerate(created, instance) {
      var (outcome, after) := ThumbnailTask(db, id, codec, today);
      if outcome == Created {
        var p := db.rows[id];
        var name := UploadTo(ThumbnailsDir, today, BackstopThumbName(p.image));
        var bytes := CreateThumbnail(db.files, p.image, codec, BackstopOptions).value;
        assert after.rows == db.rows[id := p.(thumbnail := name)];
        assert after.files == db.files[name := bytes];
      }
    }
  }

  /** The hook keeps every row within the schema. */
  lemma PostSaveKeepsRowsWellFormed(db: Db, id: nat, instance: Photo, created: bool, codec: Codec, today: Date)
    requires Consistent(db) && RowsWellFormed(db)
    ensures RowsWellFormed(PostSave(db, id, instance, created, codec, today).1)
  {
    if ShouldGenerate(created, instance) {
      ThumbnailTaskKeepsRowsWellFormed(db, id, codec, today);
    }
  }

  method CreateThumbnailOnSave(store: PhotoStore, id: nat, instance: Photo, created: bool, codec: Codec, today: Date)
    returns (fired: Option<TaskOutcome>)
    requires store.Valid()
    modifies store
    ensures store.Valid()
    ensures (fired, store.Snapshot()) == PostSave(old(store.Snapshot()), id, instance, created, codec, today)
  {
    if created && instance.thumbnail == "" {
      var outcome := CreateThumbnailForPhoto(store, id, codec, today);
      fired := Some(outcome);
    } else {
      fired := None;
    }
  }
}
