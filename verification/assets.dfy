/** server/routes/assets.js: the asset routes, each handler written as the
    sequence of interpreter calls it issues.

    The uploaded file is the value multer hands over (`req.file`), or
    none. JSON serialisation is a parameter `encode` of the upload, and an
    update receives the already serialised request metadata, because
    JSON text is not part of this model. Deleting the file on disk is left
    out; only the record is removed. */
module Assets {
  import opened Js
  import opened Database

  // =====================================================================
  // The statements, taken apart

  /** `SELECT * FROM assets WHERE id = ?` (lines 109, 151, 172, 199). */
  const AssetById: Stmt := ById("assets")

  /** The column list of the insert, line 94. */
  const AssetColumns: seq<string> :=
    ["filename", "original_name", "url", "type", "mime_type", "size",
     "metadata", "campaign_id", "status", "user_id"]

  /** Lines 93-96: `INTO assets`, the first group is the column list, no
      `where`; the only `set` is inside `assets` and is followed by `s`. */
  const InsertAsset: Stmt :=
    Stmt(Some("assets"), InsertVerb, false, false, None, None, AssetColumns, None)

  /** The SET list of line 163: three placeholders; `updated_at` takes a
      literal and is never written by the list. */
  const EditSets: seq<Assign> :=
    [Assign("campaign_id", true), Assign("status", true), Assign("metadata", true), Assign("updated_at", false)]

  /** Lines 161-165: `UPDATE assets`; the set expression captures line 163
      up to the white space before `WHERE`; the where expression is
      stopped by the final newline; the head is `where id = ?`. */
  const EditAsset: Stmt :=
    Stmt(Some("assets"), UpdateVerb, false, true, None, Some("id"), [], Some(EditSets))

  /** Line 214: `DELETE FROM assets WHERE id = ?`. */
  const RemoveAsset: Stmt := DeleteById("assets")

  /** Line 125: `FROM assets`; the where expression is `a.id = ?`, but the
      equality head needs a word followed by `=` and finds `a` followed by
      `.`, so no column is read; there is no parenthesis. */
  const AssetWithUploader: Stmt :=
    Stmt(Some("assets"), SelectVerb, false, true, Some("a.id = ?"), None, [], None)

  /** Each statement reaches the branch of `execute` or `queryOne` the
      handlers below call directly. */
  lemma StatementsDispatch(s: Store, params: seq<Value>, now: int)
    ensures ExecuteStmt(s, InsertAsset, params, now) == Insert(s, "assets", AssetColumns, params, now)
    ensures ExecuteStmt(s, EditAsset, params, now) == Update(s, "assets", Some(EditSets), params, now)
    ensures ExecuteStmt(s, RemoveAsset, params, now) == Delete(s, "assets", params)
    ensures QueryOneStmt(s, AssetWithUploader, params) == FirstIn(s, "assets")
    ensures |params| > 0 ==> QueryOneStmt(s, AssetById, params) == LookupIn(s, "assets", "id", params[0])
  {}

  // =====================================================================
  // Replies

  /** The response a handler sends: an error status, one asset with a
      status, the asset list, or the deletion message. */
  datatype Reply =
    | Refused(code: nat)
    | AssetReply(code: nat, asset: Record)
    | AssetList(assets: seq<Record>)
    | Removed

  // =====================================================================
  // Type and metadata

  /** Lines 77-82: the asset type from the MIME type. */
  function AssetType(mime: string): (r: string)
    ensures r == "image" <==> StartsWith(mime, "image/")
    ensures r == "video" <==> StartsWith(mime, "video/")
    ensures r == "document" <==> !StartsWith(mime, "image/") && !StartsWith(mime, "video/")
  {
    if StartsWith(mime, "image/") then "image"
    else if StartsWith(mime, "video/") then "video"
    else "document"
  }

  /** The type is the top-level MIME type for images and videos: it is a
      prefix of the MIME type, and every subtype of `image` or `video` is
      classified under it. */
  lemma AssetTypeIsTopLevel(mime: string, top: string, sub: string)
    requires top == "image" || top == "video"
    ensures AssetType(top + "/" + sub) == top
    ensures AssetType(mime) != "document" ==> StartsWith(mime, AssetType(mime) + "/")
  {
    var m := top + "/" + sub;
    assert m[..|top| + 1] == top + "/";
  }

  /** `v ? v.split(',').map(t => t.trim()) : []`; a truthy value that is
      not text has no `split` and the handler throws. */
  function Pieces(v: Value): (r: Option<seq<string>>)
    ensures !Truthy(v) ==> r == Some([])
    ensures Truthy(v) && !v.Str? ==> r.None?
    ensures Truthy(v) && v.Str? ==>
      && r.Some? && |r.value| == |Split(v.s, ',')|
      && forall i :: 0 <= i < |r.value| ==> r.value[i] == Trim(Split(v.s, ',')[i])
  {
    if !Truthy(v) then Some([])
    else if v.Str? then Some(SplitTrim(v.s, ','))
    else None
  }

  /** Splitting gives back a comma-joined list of trimmed, comma-free
      pieces, empty pieces included. */
  lemma PiecesJoin(parts: seq<string>)
    requires |parts| >= 1 && Join(parts, ',') != ""
    requires forall i :: 0 <= i < |parts| ==> ',' !in parts[i] && Trim(parts[i]) == parts[i]
    ensures Pieces(Str(Join(parts, ','))) == Some(parts)
  {
    var s := Join(parts, ',');
    SplitJoin(parts, ',');
    var r := SplitTrim(s, ',');
    forall i | 0 <= i < |r| ensures r[i] == parts[i] {
      assert Split(s, ',')[i] == parts[i];
    }
    assert r == parts;
  }

  /** The uploaded file as multer describes it. */
  datatype File = File(filename: string, originalName: string, mimeType: string, size: int)

  /** The text fields of the multipart body the upload reads. */
  datatype UploadBody = UploadBody(campaignId: Value, title: Value, description: Value, tags: Value, keywords: Value)

  /** The metadata object of lines 85-90. */
  datatype Meta = Meta(title: Value, description: Value, tags: seq<string>, keywords: seq<string>)

  /** Lines 85-90: the title falls back to the original file name, the
      description to the empty text, and the tag and keyword lists are the
      trimmed comma-separated pieces, or empty; none when a list field is
      truthy but not text. */
  function Metadata(file: File, body: UploadBody): (r: Option<Meta>)
    ensures r.None? <==> Pieces(body.tags).None? || Pieces(body.keywords).None?
    ensures r.Some? ==>
      && (Truthy(body.title) ==> r.value.title == body.title)
      && (!Truthy(body.title) ==> r.value.title == Str(file.originalName))
      && (Truthy(body.description) ==> r.value.description == body.description)
      && (!Truthy(body.description) ==> r.value.description == Str(""))
      && Some(r.value.tags) == Pieces(body.tags)
      && Some(r.value.keywords) == Pieces(body.keywords)
  {
    var tags := Pieces(body.tags);
    var keywords := Pieces(body.keywords);
    if tags.None? || keywords.None? then None
    else Some(Meta(Or(body.title, Str(file.originalName)), Or(body.description, Str("")), tags.value, keywords.value))
  }

  // =====================================================================
  // POST /upload

  /** The ten values bound to the ten columns, in order (lines 97-106). */
  function UploadParams(file: File, body: UploadBody, user: Value, meta: string): seq<Value> {
    [Str(file.filename), Str(file.originalName), Str("/uploads/" + file.filename),
     Str(AssetType(file.mimeType)), Str(file.mimeType), Num(file.size), Str(meta),
     Or(body.campaignId, Null), Str("uploaded"), user]
  }

  /** `POST /upload` (lines 68-117): no file is 400; otherwise insert the
      record and read it back by the id the insert handed out. A throw on
      the way (a list field that is not text, a missing collection, a
      record not found again) is 500, and whatever the insert did stays
      done. `user` is `req.user.id`. */
  function Upload(s: Store, file: Option<File>, body: UploadBody, user: Value, encode: Meta -> string, now: int): (r: (Store, Reply))
    ensures r.1 == Refused(400) <==> file.None?
    ensures file.None? ==> r.0 == s
    ensures file.Some? && Metadata(file.value, body).None? ==> r == (s, Refused(500))
    ensures r.1.Refused? ==> r.1.code == 400 || r.1.code == 500
    ensures !r.1.Refused? ==> r.1.AssetReply? && r.1.code == 201
    ensures r.1.AssetReply? ==>
      && "assets" in s.tables && "assets" in r.0.tables
      && r.1.asset in r.0.tables["assets"]
      && |r.0.tables["assets"]| == |s.tables["assets"]| + 1
  {
    if file.None? then (s, Refused(400))
    else
      var f := file.value;
      var meta := Metadata(f, body);
      if meta.None? then (s, Refused(500))
      else
        var (s1, o) := Insert(s, "assets", AssetColumns, UploadParams(f, body, user, encode(meta.value)), now);
        if o.Failed? then (s1, Refused(500))
        else
          var asset := LookupIn(s1, "assets", "id", o.lastId);
          if !asset.Row? then (s1, Refused(500))
          else (s1, AssetReply(201, asset.record))
  }

  /** No column of the insert repeats, and none is the id or a date. */
  lemma AssetColumnsDistinct()
    ensures forall i :: 0 <= i < |AssetColumns| ==> AssetColumns[i] !in AssetColumns[i + 1..]
    ensures "id" !in AssetColumns && "created_at" !in AssetColumns && "updated_at" !in AssetColumns
  {
    var cs := AssetColumns;
    assert cs[0] !in cs[1..];
  }

  /** The uploaded record holds exactly the id, the two dates and the ten
      columns: the file's names, a URL under `/uploads/`, the type, the MIME
      type, the size, the serialised metadata, the campaign or `null`, the
      status `uploaded`, and the uploader or `null`. */
  lemma UploadRecordFields(id: int, file: File, body: UploadBody, user: Value, meta: string, now: int)
    ensures var r := NewRecord(Num(id), AssetColumns, UploadParams(file, body, user, meta), now);
      && (forall c :: c in r <==> c == "id" || c == "created_at" || c == "updated_at" || c in AssetColumns)
      && Field(r, "id") == Num(id)
      && Field(r, "filename") == Str(file.filename)
      && Field(r, "original_name") == Str(file.originalName)
      && Field(r, "url") == Str("/uploads/" + file.filename)
      && Field(r, "type") == Str(AssetType(file.mimeType))
      && Field(r, "mime_type") == Str(file.mimeType)
      && Field(r, "size") == Num(file.size)
      && Field(r, "metadata") == Str(meta)
      && Field(r, "campaign_id") == (if Truthy(body.campaignId) then body.campaignId else Null)
      && Field(r, "status") == Str("uploaded")
      && Field(r, "user_id") == (if user == Undefined then Null else user)
      && Field(r, "created_at") == Time(now) && Field(r, "updated_at") == Time(now)
  {
    var params := UploadParams(file, body, user, meta);
    AssetColumnsDistinct();
    NewRecordFacts(Num(id), AssetColumns, params, now);
    NewRecordStamps(Num(id), AssetColumns, params, now);
    NewRecordField(Num(id), AssetColumns, params, now, 0);
    NewRecordField(Num(id), AssetColumns, params, now, 1);
    NewRecordField(Num(id), AssetColumns, params, now, 2);
    NewRecordField(Num(id), AssetColumns, params, now, 3);
    NewRecordField(Num(id), AssetColumns, params, now, 4);
    NewRecordField(Num(id), AssetColumns, params, now, 5);
    NewRecordField(Num(id), AssetColumns, params, now, 6);
    NewRecordField(Num(id), AssetColumns, params, now, 7);
    NewRecordField(Num(id), AssetColumns, params, now, 8);
    NewRecordField(Num(id), AssetColumns, params, now, 9);
  }

  /** An upload with a file and usable list fields inserts its record and
      replies with what the lookup by the new id finds. */
  lemma UploadUnfolds(s: Store, file: File, body: UploadBody, user: Value, encode: Meta -> string, now: int)
    requires "assets" in s.tables && Metadata(file, body).Some?
    ensures var params := UploadParams(file, body, user, encode(Metadata(file, body).value));
      var (s1, o) := Insert(s, "assets", AssetColumns, params, now);
      var asset := LookupIn(s1, "assets", "id", o.lastId);
      && Upload(s, Some(file), body, user, encode, now).0 == s1
      && (asset.Row? ==> Upload(s, Some(file), body, user, encode, now).1 == AssetReply(201, asset.record))
  {}

  /** In a well-formed store, the lookup by the id an asset insert hands
      out finds the inserted record. */
  lemma InsertedAssetFound(s: Store, params: seq<Value>, now: int)
    requires WellFormed(s) && "assets" in s.tables
    ensures var (s1, o) := Insert(s, "assets", AssetColumns, params, now);
      && o.Changes?
      && LookupIn(s1, "assets", "id", o.lastId) == Row(NewRecord(Num(s.next["assets"]), AssetColumns, params, now))
  {
    AssetColumnsDistinct();
    InsertThenFind(s, "assets", AssetColumns, params, now);
    var (s1, o) := Insert(s, "assets", AssetColumns, params, now);
    StatementsDispatch(s1, [o.lastId], now);
  }

  /** On a well-formed store with the assets collection, an upload whose
      list fields are text or empty appends one record under the next id,
      moves that counter by one, and replies 201 with that record. */
  lemma UploadEffect(s: Store, file: File, body: UploadBody, user: Value, encode: Meta -> string, now: int)
    requires WellFormed(s) && "assets" in s.tables && Metadata(file, body).Some?
    ensures var (s', reply) := Upload(s, Some(file), body, user, encode, now);
      var rec := NewRecord(Num(s.next["assets"]), AssetColumns, UploadParams(file, body, user, encode(Metadata(file, body).value)), now);
      && reply == AssetReply(201, rec)
      && s'.tables == s.tables["assets" := s.tables["assets"] + [rec]]
      && s'.next == s.next["assets" := s.next["assets"] + 1]
  {
    var params := UploadParams(file, body, user, encode(Metadata(file, body).value));
    UploadIs(s, file, body, user, encode, now);
    assert "assets" in s.next;
    InsertedAssets(s, params, now, Upload(s, Some(file), body, user, encode, now));
  }

  /** The pair an upload returns, read as the asset insert's store and a
      201 reply with the inserted record. */
  lemma InsertedAssets(s: Store, params: seq<Value>, now: int, r: (Store, Reply))
    requires "assets" in s.tables && "assets" in s.next
    requires r == (Insert(s, "assets", AssetColumns, params, now).0, AssetReply(201, NewRecord(Num(s.next["assets"]), AssetColumns, params, now)))
    ensures var rec := NewRecord(Num(s.next["assets"]), AssetColumns, params, now);
      && r.1 == AssetReply(201, rec)
      && r.0.tables == s.tables["assets" := s.tables["assets"] + [rec]]
      && r.0.next == s.next["assets" := s.next["assets"] + 1]
  {
  }

  /** Under the same conditions, an upload is the asset insert, replying
      201 with the inserted record. */
  lemma UploadIs(s: Store, file: File, body: UploadBody, user: Value, encode: Meta -> string, now: int)
    requires WellFormed(s) && "assets" in s.tables && Metadata(file, body).Some?
    ensures var params := UploadParams(file, body, user, encode(Metadata(file, body).value));
      Upload(s, Some(file), body, user, encode, now)
        == (Insert(s, "assets", AssetColumns, params, now).0, AssetReply(201, NewRecord(Num(s.next["assets"]), AssetColumns, params, now)))
  {
    var params := UploadParams(file, body, user, encode(Metadata(file, body).value));
    UploadUnfolds(s, file, body, user, encode, now);
    InsertedAssetFound(s, params, now);
  }

  // =====================================================================
  // PUT /:id

  /** The fields of the request body the update reads. `metadata` is the
      serialised request metadata when that is truthy, and none
      otherwise. */
  datatype Patch = Patch(campaignId: Value, status: Value, metadata: Option<string>)

  /** `v !== undefined ? v : stored` */
  function Fallback(v: Value, stored: Value): (r: Value)
    ensures v != Undefined ==> r == v
    ensures v == Undefined ==> r == stored
  {
    if v != Undefined then v else stored
  }

  /** The four parameters of lines 166-169. */
  function EditParams(asset: Record, id: string, p: Patch): seq<Value> {
    [Fallback(p.campaignId, Field(asset, "campaign_id")),
     Fallback(p.status, Field(asset, "status")),
     if p.metadata.Some? then Str(p.metadata.value) else Field(asset, "metadata"),
     Str(id)]
  }

  /** `PUT /:id` (lines 149-191): look the asset up by the text id; none is
      404. Otherwise update campaign, status and metadata, each from the
      request when given and from the stored record otherwise, and reply
      with the record read back. */
  function Edit(s: Store, id: string, p: Patch, now: int): (r: (Store, Reply))
    ensures r.1 == Refused(404) <==> !Found(s, "assets", "id", Str(id))
    ensures r.1 == Refused(404) ==> r.0 == s
    ensures r.1.Refused? ==> r.1.code == 404 || r.1.code == 500
    ensures !r.1.Refused? ==> r.1.AssetReply? && r.1.code == 200
    ensures r.0.next == s.next && r.0.tables.Keys == s.tables.Keys
  {
    var asset := LookupIn(s, "assets", "id", Str(id));
    if !asset.Row? then (s, Refused(404))
    else
      var s1 := Update(s, "assets", Some(EditSets), EditParams(asset.record, id, p), now).0;
      var updated := LookupIn(s1, "assets", "id", Str(id));
      if !updated.Row? then (s1, Refused(500)) else (s1, AssetReply(200, updated.record))
  }

  /** One placeholder assignment: write `v` to `c` unless it is
      `undefined`. */
  function Put(r: Record, c: string, v: Value): (r': Record)
    ensures Field(r', c) == Fallback(v, Field(r, c))
    ensures forall k :: k != c ==> Field(r', k) == Field(r, k)
  {
    if v != Undefined then r[c := v] else r
  }

  /** The SET list of the update writes the first three parameters to
      campaign, status and metadata, in that order. */
  lemma EditAssigned(r: Record, params: seq<Value>)
    ensures Assigned(r, EditSets, params, 0)
      == Put(Put(Put(r, "campaign_id", Param(params, 0)), "status", Param(params, 1)), "metadata", Param(params, 2))
  {
    var r1 := Put(r, "campaign_id", Param(params, 0));
    var r2 := Put(r1, "status", Param(params, 1));
    var r3 := Put(r2, "metadata", Param(params, 2));
    var tail := EditSets[1..];
    assert tail == [Assign("status", true), Assign("metadata", true), Assign("updated_at", false)];
    assert tail[1..] == [Assign("metadata", true), Assign("updated_at", false)];
    assert tail[1..][1..] == [Assign("updated_at", false)];
    assert Assigned(r3, tail[1..][1..], params, 3) == Assigned(r3, [], params, 3);
    assert Assigned(r2, tail[1..], params, 2) == r3;
    assert Assigned(r1, tail, params, 1) == r3;
  }

  /** The stored asset `was` after the update: the three placeholders
      applied and `updated_at` stamped. */
  function Edited(was: Record, id: string, p: Patch, now: int): Record {
    Assigned(was, EditSets, EditParams(was, id, p), 0)["updated_at" := Time(now)]
  }

  /** Campaign and status take the request value when given and keep the
      stored one otherwise; metadata takes the serialised request metadata
      when given; `updated_at` is stamped; every other field, the id
      included, stays. */
  lemma EditedFields(was: Record, id: string, p: Patch, now: int)
    ensures var rec := Edited(was, id, p, now);
      && Field(rec, "campaign_id") == Fallback(p.campaignId, Field(was, "campaign_id"))
      && Field(rec, "status") == Fallback(p.status, Field(was, "status"))
      && Field(rec, "metadata") == (if p.metadata.Some? then Str(p.metadata.value) else Field(was, "metadata"))
      && Field(rec, "updated_at") == Time(now)
      && forall c :: c != "campaign_id" && c != "status" && c != "metadata" && c != "updated_at" ==>
           Field(rec, c) == Field(was, c)
  {
    EditAssigned(was, EditParams(was, id, p));
  }

  /** The update handler, once the text id has found record `k`: the store
      it leaves and the record it reads back. */
  lemma EditUnfolds(s: Store, id: string, p: Patch, now: int, k: nat)
    requires "assets" in s.tables && FindIndex(s.tables["assets"], Matches("id", Str(id))) == Some(k)
    ensures var rows := s.tables["assets"];
      var s1 := Update(s, "assets", Some(EditSets), EditParams(rows[k], id, p), now).0;
      && s1.tables == s.tables["assets" := rows[k := Edited(rows[k], id, p, now)]]
      && Edit(s, id, p, now) == (s1, if LookupIn(s1, "assets", "id", Str(id)).Row?
                                     then AssetReply(200, LookupIn(s1, "assets", "id", Str(id)).record)
                                     else Refused(500))
  {
    var rows := s.tables["assets"];
    assert LookupIn(s, "assets", "id", Str(id)) == Row(rows[k]);
    UpdateEffect(s, "assets", EditSets, EditParams(rows[k], id, p), now, k);
  }

  /** An update of the asset that the text id finds first changes that
      record, and only it, into `Edited`, and replies 200 with it. */
  lemma EditEffect(s: Store, id: string, p: Patch, now: int, k: nat)
    requires "assets" in s.tables && FindIndex(s.tables["assets"], Matches("id", Str(id))) == Some(k)
    ensures var (s', reply) := Edit(s, id, p, now);
      var rows := s.tables["assets"];
      && reply == AssetReply(200, Edited(rows[k], id, p, now))
      && s'.tables == s.tables["assets" := rows[k := Edited(rows[k], id, p, now)]]
  {
    var rows := s.tables["assets"];
    var rec := Edited(rows[k], id, p, now);
    EditUnfolds(s, id, p, now, k);
    EditedFields(rows[k], id, p, now);
    var s1 := Update(s, "assets", Some(EditSets), EditParams(rows[k], id, p), now).0;
    assert Field(rec, "id") == Field(rows[k], "id");
    FindFirst(rows[k := rec], Matches("id", Str(id)), k);
    assert LookupIn(s1, "assets", "id", Str(id)) == Row(rec);
  }

  // =====================================================================
  // DELETE /:id

  /** `DELETE /:id` (lines 197-221): look the asset up by the text id;
      none is 404. Otherwise delete every record carrying that id. */
  function Remove(s: Store, id: string): (r: (Store, Reply))
    ensures r.1 == Refused(404) <==> !Found(s, "assets", "id", Str(id))
    ensures r.1 == Refused(404) ==> r.0 == s
    ensures r.1 != Refused(404) ==> r.1 == Removed
    ensures r.0.next == s.next && r.0.tables.Keys == s.tables.Keys
    ensures forall t :: t in s.tables && t != "assets" ==> r.0.tables[t] == s.tables[t]
  {
    var asset := LookupIn(s, "assets", "id", Str(id));
    if !asset.Row? then (s, Refused(404))
    else (Delete(s, "assets", [Str(id)]).0, Removed)
  }

  /** Filtering out exactly record `k` leaves the others in order. */
  lemma {:induction false} FilterDropsOne(rows: seq<Record>, p: Record -> bool, k: nat)
    requires k < |rows| && !p(rows[k])
    requires forall i :: 0 <= i < |rows| && i != k ==> p(rows[i])
    ensures Filter(rows, p) == rows[..k] + rows[k + 1..]
    decreases k
  {
    var tail := rows[1..];
    if k == 0 {
      forall i | 0 <= i < |tail| ensures p(tail[i]) {
        assert tail[i] == rows[i + 1];
      }
      FilterAll(tail, p);
    } else {
      forall i | 0 <= i < |tail| && i != k - 1 ensures p(tail[i]) {
        assert tail[i] == rows[i + 1];
      }
      FilterDropsOne(tail, p, k - 1);
      assert [rows[0]] + (tail[..k - 1] + tail[k..]) == rows[..k] + rows[k + 1..];
    }
  }

  /** In a collection with increasing ids, the delete test by a text id
      that reaches record `k` drops that record and keeps every other. */
  lemma KeepsAllBut(rows: seq<Record>, id: string, k: nat)
    requires Increasing(rows) && k < |rows| && Matches("id", Str(id))(rows[k])
    ensures !Keeps(Str(id))(rows[k])
    ensures forall i :: 0 <= i < |rows| && i != k ==> Keeps(Str(id))(rows[i])
  {
    forall i | 0 <= i < |rows| && i != k ensures Keeps(Str(id))(rows[i]) {
      assert IdOf(rows[i]) != IdOf(rows[k]);
    }
  }

  /** Deleting an asset that a text id reaches replaces the collection by
      what the delete test keeps. */
  lemma RemoveUnfolds(s: Store, id: string, k: nat)
    requires "assets" in s.tables && k < |s.tables["assets"]|
    requires Matches("id", Str(id))(s.tables["assets"][k])
    ensures Remove(s, id) == (s.(tables := s.tables["assets" := Filter(s.tables["assets"], Keeps(Str(id)))]), Removed)
  {
    assert Found(s, "assets", "id", Str(id));
    assert Param([Str(id)], 0) == Str(id);
  }

  /** In a well-formed store, deleting an asset by a text id that reaches
      record `k` removes exactly that record; the others keep their
      order. */
  lemma RemoveEffect(s: Store, id: string, k: nat)
    requires WellFormed(s) && "assets" in s.tables && k < |s.tables["assets"]|
    requires Matches("id", Str(id))(s.tables["assets"][k])
    ensures var rows := s.tables["assets"];
      Remove(s, id) == (s.(tables := s.tables["assets" := rows[..k] + rows[k + 1..]]), Removed)
  {
    var rows := s.tables["assets"];
    RemoveUnfolds(s, id, k);
    KeepsAllBut(rows, id, k);
    FilterDropsOne(rows, Keeps(Str(id)), k);
  }

  // =====================================================================
  // GET /:id

  /** `GET /:id` (lines 123-143) as written: the statement's `a.id = ?`
      is not an equality the lookup recognises, so the reply is the first
      asset whatever the id, and 404 only when there is no asset at all. */
  function Show(s: Store, id: string): (r: Reply)
    ensures r == Refused(404) <==> "assets" !in s.tables || |s.tables["assets"]| == 0
    ensures r.AssetReply? ==> r.code == 200 && r.asset == s.tables["assets"][0]
    ensures r.Refused? || r.AssetReply?
  {
    var asset := FirstIn(s, "assets");
    if !asset.Row? then Refused(404) else AssetReply(200, asset.record)
  }

  /** A store of two assets, numbered 0 and `m`. */
  function TwoAssets(m: nat): Store {
    Store(map["assets" := [map["id" := Num(0)], map["id" := Num(m)]]], map["assets" := m + 1])
  }

  /** The two-asset store is well-formed when `m` is positive. */
  lemma TwoAssetsWellFormed(m: nat)
    requires m > 0
    ensures WellFormed(TwoAssets(m))
  {
    var rows := TwoAssets(m).tables["assets"];
    assert IdOf(rows[0]) == 0 && IdOf(rows[1]) == m;
  }

  /** On the two-asset store, `GET /<m>` answers with asset 0, although
      the id reaches asset `m` and not asset 0. */
  lemma ShowAnswersFirstAsset(m: nat)
    requires m > 0
    ensures var s := TwoAssets(m);
      var id := NatToString(m);
      && WellFormed(s)
      && Matches("id", Str(id))(s.tables["assets"][1])
      && !Matches("id", Str(id))(s.tables["assets"][0])
      && Show(s, id) == AssetReply(200, s.tables["assets"][0])
  {
    TwoAssetsWellFormed(m);
    CoerceDecimal(m);
  }

  /** `GET /:id` as the statement means it: the asset the text id finds,
      404 when none. */
  function ShowById(s: Store, id: string): (r: Reply)
    ensures r == Refused(404) <==> !Found(s, "assets", "id", Str(id))
    ensures r.Refused? || r.AssetReply?
    ensures r.AssetReply? ==> r.code == 200 && r.asset in s.tables["assets"] && Matches("id", Str(id))(r.asset)
  {
    var asset := LookupIn(s, "assets", "id", Str(id));
    if !asset.Row? then Refused(404) else AssetReply(200, asset.record)
  }

  /** In a well-formed store the corrected lookup answers with the one
      asset the id reaches. */
  lemma ShowByIdFinds(s: Store, id: string, k: nat)
    requires WellFormed(s) && "assets" in s.tables && k < |s.tables["assets"]|
    requires Matches("id", Str(id))(s.tables["assets"][k])
    ensures ShowById(s, id) == AssetReply(200, s.tables["assets"][k])
  {
    var rows := s.tables["assets"];
    match FindIndex(rows, Matches("id", Str(id)))
    case Some(i) =>
      UniqueIds(rows, i, k);
    case None =>
  }

  // =====================================================================
  // GET /

  /** `GET /` (lines 17-62): every asset in stored order. The filters only
      append text after `FROM assets`, which the interpreter never reads,
      so they are not parameters here. */
  function Listing(s: Store): (r: Reply)
    ensures r.AssetList?
    ensures "assets" in s.tables ==> r.assets == s.tables["assets"]
    ensures "assets" !in s.tables ==> r.assets == []
  {
    AssetList(QueryAllTable(s, Some("assets")))
  }

  // =====================================================================
  // Round trips

  /** After an upload, the listing is the earlier listing followed by the
      uploaded asset. */
  lemma UploadThenList(s: Store, file: File, body: UploadBody, user: Value, encode: Meta -> string, now: int)
    requires WellFormed(s) && "assets" in s.tables && Metadata(file, body).Some?
    ensures var (s', reply) := Upload(s, Some(file), body, user, encode, now);
      reply.AssetReply? && Listing(s').assets == Listing(s).assets + [reply.asset]
  {
    UploadEffect(s, file, body, user, encode, now);
  }

  /** Deleting by the decimal text of the id of the last asset of a
      well-formed store removes just that asset. */
  lemma RemoveNewest(s: Store, rows: seq<Record>, rec: Record, n: nat)
    requires WellFormed(s) && "assets" in s.tables && s.tables["assets"] == rows + [rec]
    requires Field(rec, "id") == Num(n)
    ensures Remove(s, NatToString(n)) == (s.(tables := s.tables["assets" := rows]), Removed)
  {
    var id := NatToString(n);
    CoerceDecimal(n);
    var all := rows + [rec];
    assert all[|rows|] == rec;
    RemoveEffect(s, id, |rows|);
    assert all[..|rows|] == rows;
    assert all[|rows| + 1..] == [];
    assert all[..|rows|] + all[|rows| + 1..] == rows;
  }

  /** The decimal text of a natural number coerces back to it. */
  lemma CoerceDecimal(n: nat)
    ensures CoerceId(Str(NatToString(n))) == Num(n)
  {
    ParseIntNatToString(n);
  }

  /** Deleting an upload by the decimal text of its id restores the
      collections; only the counter has moved on. */
  lemma UploadThenRemove(s: Store, file: File, body: UploadBody, user: Value, encode: Meta -> string, now: int)
    requires WellFormed(s) && "assets" in s.tables && Metadata(file, body).Some?
    requires s.next["assets"] >= 0
    ensures var (s1, reply) := Upload(s, Some(file), body, user, encode, now);
      var (s2, gone) := Remove(s1, NatToString(s.next["assets"]));
      && gone == Removed
      && s2.tables == s.tables
      && s2.next == s.next["assets" := s.next["assets"] + 1]
  {
    var n: nat := s.next["assets"];
    var params := UploadParams(file, body, user, encode(Metadata(file, body).value));
    var rec := NewRecord(Num(n), AssetColumns, params, now);
    UploadEffect(s, file, body, user, encode, now);
    UploadKeepsWellFormed(s, Some(file), body, user, encode, now);
    AssetRecordId(n, params, now);
    AppendThenRemove(s, Upload(s, Some(file), body, user, encode, now).0, rec, n);
  }

  /** A new asset record carries the id it was given. */
  lemma AssetRecordId(n: int, params: seq<Value>, now: int)
    ensures Field(NewRecord(Num(n), AssetColumns, params, now), "id") == Num(n)
  {
    AssetColumnsDistinct();
    NewRecordStamps(Num(n), AssetColumns, params, now);
  }

  /** When `s1` is `s` with `rec` appended to the assets and well-formed,
      deleting `rec` by the decimal text of its id gives back the
      collections of `s`. */
  lemma AppendThenRemove(s: Store, s1: Store, rec: Record, n: nat)
    requires "assets" in s.tables && WellFormed(s1)
    requires s1.tables == s.tables["assets" := s.tables["assets"] + [rec]]
    requires Field(rec, "id") == Num(n)
    ensures var (s2, gone) := Remove(s1, NatToString(n));
      gone == Removed && s2.tables == s.tables && s2.next == s1.next
  {
    var rows := s.tables["assets"];
    RemoveNewest(s1, rows, rec, n);
    RestoreRows(s.tables, "assets", rows + [rec]);
  }

  /** Writing a collection back over its replacement gives the map back.
      Stated apart so that the map equality is proved on its own. */
  lemma RestoreRows(m: map<string, seq<Record>>, t: string, other: seq<Record>)
    requires t in m
    ensures m[t := other][t := m[t]] == m
  {}

  /** An upload keeps the store well-formed. */
  lemma UploadKeepsWellFormed(s: Store, file: Option<File>, body: UploadBody, user: Value, encode: Meta -> string, now: int)
    requires WellFormed(s)
    ensures WellFormed(Upload(s, file, body, user, encode, now).0)
  {
    if file.Some? && Metadata(file.value, body).Some? && "assets" in s.tables {
      var params := UploadParams(file.value, body, user, encode(Metadata(file.value, body).value));
      UploadUnfolds(s, file.value, body, user, encode, now);
      AssetColumnsDistinct();
      InsertKeepsWellFormed(s, "assets", AssetColumns, params, now);
    }
  }
}
