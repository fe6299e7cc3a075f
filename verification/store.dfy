/** The upload directory as an id-keyed store: the calendar payloads and
    the metadata records, the three read routes that look them up, and the
    upload route that validates a request and writes both. */
module ArtifactStore {
  import opened Gateway

  /** The metadata record written beside each payload. */
  datatype Meta = Meta(id: string, name: string, origName: string)

  /** The upload directory, read by id: `payloads[id]` is the content of
      the file `id.ics` and `records[id]` the record in `id.json`. */
  datatype Store = Store(payloads: map<string, Bytes>, records: map<string, Meta>)

  /** Name of the file holding an id's payload. */
  function PayloadFile(id: string): string { id + ".ics" }

  /** Name of the file holding an id's metadata record. */
  function RecordFile(id: string): string { id + ".json" }

  /** The two naming schemes never collide: each is one-to-one, and no
      payload name is a record name. */
  lemma FileNamesDistinct(a: string, b: string)
    ensures PayloadFile(a) == PayloadFile(b) ==> a == b
    ensures RecordFile(a) == RecordFile(b) ==> a == b
    ensures PayloadFile(a) != RecordFile(b)
  {
    if PayloadFile(a) == PayloadFile(b) {
      assert a == PayloadFile(a)[..|a|] && b == PayloadFile(b)[..|b|];
    }
    if RecordFile(a) == RecordFile(b) {
      assert a == RecordFile(a)[..|a|] && b == RecordFile(b)[..|b|];
    }
    var p, r := PayloadFile(a), RecordFile(b);
    assert p[|p| - 1] == 's' && r[|r| - 1] == 'n';
  }

  /** A file in the upload directory. */
  datatype File = Calendar(data: Bytes) | Record(meta: Meta)

  /** The upload directory by file name, as the routes address it. */
  function Files(s: Store): map<string, File> {
    assert forall a, b :: PayloadFile(a) == PayloadFile(b) ==> a == b by {
      forall a, b { FileNamesDistinct(a, b); }
    }
    assert forall a, b :: RecordFile(a) == RecordFile(b) ==> a == b by {
      forall a, b { FileNamesDistinct(a, b); }
    }
    (map id | id in s.payloads :: PayloadFile(id) := Calendar(s.payloads[id]))
    + (map id | id in s.records :: RecordFile(id) := Record(s.records[id]))
  }

  /** An id's payload file is in the directory exactly when the id has a
      payload, and holds that payload. */
  lemma PayloadFileLookup(s: Store, id: string)
    ensures PayloadFile(id) in Files(s) <==> id in s.payloads
    ensures id in s.payloads ==> Files(s)[PayloadFile(id)] == Calendar(s.payloads[id])
  {
    forall b { FileNamesDistinct(id, b); }
  }

  /** An id's record file is in the directory exactly when the id has a
      record, and holds that record. */
  lemma RecordFileLookup(s: Store, id: string)
    ensures RecordFile(id) in Files(s) <==> id in s.records
    ensures id in s.records ==> Files(s)[RecordFile(id)] == Record(s.records[id])
  {
    forall b { FileNamesDistinct(b, id); }
  }

  /** Answer of a read route: the item, or 404 when its file does not exist. */
  datatype Lookup<T> = Found(value: T) | NotFound

  /** `GET /i/<id>` (`get_ics`): the bytes of `id.ics`, or 404. It looks
      at the payload file only. */
  function GetIcs(s: Store, id: string): (r: Lookup<Bytes>)
    ensures r == if id in s.payloads then Found(s.payloads[id]) else NotFound
  {
    PayloadFileLookup(s, id);
    var path := PayloadFile(id);
    if path !in Files(s) then NotFound
    else match Files(s)[path]
      case Calendar(data) => Found(data)
      case Record(_) => NotFound
  }

  /** `GET /meta/<id>` (`get_meta`): the record in `id.json`, or 404. It
      looks at the record file only. */
  function GetMeta(s: Store, id: string): (r: Lookup<Meta>)
    ensures r == if id in s.records then Found(s.records[id]) else NotFound
  {
    RecordFileLookup(s, id);
    var path := RecordFile(id);
    if path !in Files(s) then NotFound
    else match Files(s)[path]
      case Record(meta) => Found(meta)
      case Calendar(_) => NotFound
  }

  /** What `schedule_page` has in hand once its existence check passes:
      the id from the URL and the record loaded from `id.json`. Rendering
      the template comes after this and is not modelled. */
  datatype Page = Page(fileId: string, meta: Meta)

  /** `GET /s/<id>` (`schedule_page`) up to rendering: 404 unless `id.json`
      exists, otherwise the loaded record; the payload file is not consulted. */
  function SchedulePage(s: Store, id: string): (r: Lookup<Page>)
    ensures r == if id in s.records then Found(Page(id, s.records[id])) else NotFound
  {
    RecordFileLookup(s, id);
    var path := RecordFile(id);
    if path !in Files(s) then NotFound
    else match Files(s)[path]
      case Record(meta) => Found(Page(id, meta))
      case Calendar(_) => NotFound
  }

  /** Every record sits beside a payload of the same id, and names that id. */
  ghost predicate Consistent(s: Store) {
    && s.records.Keys <= s.payloads.Keys
    && forall id :: id in s.records ==> s.records[id].id == id
  }

  /** How `FileStorage.save` ended. On failure, `kept` says what is left at
      the destination: `None` when it was never opened, `Some(n)` when it
      was opened and the copy stopped after `n` bytes. */
  datatype SaveResult = Saved | SaveFailed(reason: string, kept: Option<nat>)

  /** What the upload route takes from outside the request: the id that
      `uuid4().hex` produced, `secure_filename`, how saving the payload went,
      and whether writing the metadata file went through. */
  datatype Env = Env(id: string, sanitize: string -> string, save: SaveResult, metaWritten: bool)

  /** The upload route's answer. `Crashed` is the exception that escapes
      when the metadata file cannot be written. */
  datatype Reply =
    | Shared(id: string, name: string, link: string)
    | Refused(status: int, error: string)
    | Crashed

  datatype Outcome = Outcome(store: Store, reply: Reply)

  /** Write an id's payload file, replacing any earlier one. */
  function PutPayload(s: Store, id: string, data: Bytes): (t: Store)
    ensures t.records == s.records
    ensures id in t.payloads && t.payloads[id] == data
    ensures t.payloads - {id} == s.payloads - {id}
    ensures Consistent(s) ==> Consistent(t)
  {
    s.(payloads := s.payloads[id := data])
  }

  /** Write an id's record file, replacing any earlier one. */
  function PutRecord(s: Store, id: string, meta: Meta): (t: Store)
    ensures t.payloads == s.payloads
    ensures id in t.records && t.records[id] == meta
    ensures t.records - {id} == s.records - {id}
    ensures Consistent(s) && id in s.payloads && meta.id == id ==> Consistent(t)
  {
    s.(records := s.records[id := meta])
  }

  /** Prefix for the 500 answer when the payload cannot be saved. */
  const SaveErrorPrefix := "Failed to save: "

  /** The store after a payload save that failed: untouched, or holding
      the prefix that was copied before the failure. */
  function AfterFailedSave(s: Store, id: string, content: Bytes, kept: Option<nat>): (t: Store)
    ensures t.records == s.records
    ensures t.payloads - {id} == s.payloads - {id}
    ensures kept.None? ==> t == s
    ensures kept.Some? ==> id in t.payloads && t.payloads[id] <= content
  {
    match kept
    case None => s
    case Some(n) => PutPayload(s, id, content[..if n < |content| then n else |content|])
  }

  /** `upload_schedule`: run the guard chain, save the payload as `id.ics`,
      write the record as `id.json`, and answer with the share link. */
  function Upload(s: Store, req: UploadRequest, env: Env): (out: Outcome)
    requires IsHexId(env.id)
    // a refused request changes nothing
    ensures Validate(req).Some? ==> out == Outcome(s, Refused(400, Validate(req).value))
    // success needs every step to go through
    ensures out.reply.Shared? <==> Validate(req).None? && env.save.Saved? && env.metaWritten
    ensures Validate(req).None? && env.save.SaveFailed? ==>
      out.reply == Refused(500, SaveErrorPrefix + env.save.reason)
    // only a successful upload adds a record, and only the new id is touched
    ensures !out.reply.Shared? ==> out.store.records == s.records
    ensures out.store.payloads - {env.id} == s.payloads - {env.id}
    ensures out.store.records - {env.id} == s.records - {env.id}
    // the metadata write comes after the payload is in place
    ensures out.reply.Crashed? ==> out.store.payloads == s.payloads[env.id := req.file.value.content]
    ensures out.reply.Shared? ==>
      && IsHexId(out.reply.id) && out.reply.id == env.id
      && out.reply.name == DisplayName(req.name)
      && out.reply.link == ShareLink(req.urlRoot, env.id)
      && env.id in out.store.payloads && out.store.payloads[env.id] == req.file.value.content
      && env.id in out.store.records
      && out.store.records[env.id] == Meta(env.id, out.reply.name, env.sanitize(req.file.value.filename))
    ensures Consistent(s) ==> Consistent(out.store)
  {
    match Validate(req)
    case Some(error) => Outcome(s, Refused(400, error))
    case None =>
      var part := req.file.value;
      var id := env.id;
      var name := DisplayName(req.name);
      var origName := env.sanitize(part.filename);
      match env.save
      case SaveFailed(reason, kept) =>
        Outcome(AfterFailedSave(s, id, part.content, kept), Refused(500, SaveErrorPrefix + reason))
      case Saved =>
        var saved := PutPayload(s, id, part.content);
        if !env.metaWritten then Outcome(saved, Crashed)
        else
          var meta := Meta(id, name, origName);
          Outcome(PutRecord(saved, id, meta), Shared(id, meta.name, ShareLink(req.urlRoot, id)))
  }

  /** Round trip: after a successful upload, the share link's last segment
      is the new id, the `/s/` existence check passes for it and loads the
      new record, and `/i/<id>` and `/meta/<id>` return exactly the uploaded
      bytes and that record. */
  lemma UploadThenGet(s: Store, req: UploadRequest, env: Env)
    requires IsHexId(env.id)
    requires Upload(s, req, env).reply.Shared?
    ensures var out := Upload(s, req, env);
      var link := out.reply.link;
      var meta := Meta(env.id, DisplayName(req.name), env.sanitize(req.file.value.filename));
      && LastSegment(link) == env.id
      && SchedulePage(out.store, LastSegment(link)) == Found(Page(env.id, meta))
      && GetMeta(out.store, env.id) == Found(meta)
      && GetIcs(out.store, env.id) == Found(req.file.value.content)
  {
    ShareLinkNamesId(req.urlRoot, env.id);
  }

  /** Every upload, whatever its outcome, leaves what the read routes
      answer for any other id as it was. */
  lemma UploadLeavesOtherIds(s: Store, req: UploadRequest, env: Env, other: string)
    requires IsHexId(env.id) && other != env.id
    ensures var t := Upload(s, req, env).store;
      && GetIcs(t, other) == GetIcs(s, other)
      && GetMeta(t, other) == GetMeta(s, other)
      && SchedulePage(t, other) == SchedulePage(s, other)
  {
    var t := Upload(s, req, env).store;
    assert other in t.payloads - {env.id} <==> other in s.payloads - {env.id};
    assert other in t.records - {env.id} <==> other in s.records - {env.id};
    if other in s.payloads {
      assert (t.payloads - {env.id})[other] == (s.payloads - {env.id})[other];
    }
    if other in s.records {
      assert (t.records - {env.id})[other] == (s.records - {env.id})[other];
    }
  }

  /** Every file of a store is the payload file or the record file of an
      id the store holds. */
  lemma FileOwner(s: Store, path: string) returns (id: string)
    requires path in Files(s)
    ensures (id in s.payloads && path == PayloadFile(id)) || (id in s.records && path == RecordFile(id))
  {
    id :| (id in s.payloads && path == PayloadFile(id)) || (id in s.records && path == RecordFile(id));
  }

  /** Which files exist depends only on which ids have payloads and records. */
  lemma FileNamesFollowIds(a: Store, b: Store)
    requires a.payloads.Keys == b.payloads.Keys && a.records.Keys == b.records.Keys
    ensures Files(a).Keys == Files(b).Keys
  {
    FileNamesIncluded(a, b);
    FileNamesIncluded(b, a);
  }

  /** One half of `FileNamesFollowIds`. */
  lemma FileNamesIncluded(a: Store, b: Store)
    requires a.payloads.Keys <= b.payloads.Keys && a.records.Keys <= b.records.Keys
    ensures Files(a).Keys <= Files(b).Keys
  {
    forall path | path in Files(a)
      ensures path in Files(b)
    {
      var id := FileOwner(a, path);
      PayloadFileLookup(b, id);
      RecordFileLookup(b, id);
    }
  }

  /** The client's file name plays no part in where anything is stored: two
      uploads of the same bytes that the guards treat alike, under any two
      file names, leave the same files with the same payloads; only the
      records' contents can differ. */
  lemma FilenameNotUsedForAddressing(s: Store, req1: UploadRequest, req2: UploadRequest, env: Env)
    requires IsHexId(env.id)
    requires Validate(req1) == Validate(req2)
    requires req1.file.Some? && req2.file.Some? && req1.file.value.content == req2.file.value.content
    ensures var t1, t2 := Upload(s, req1, env).store, Upload(s, req2, env).store;
      && t1.payloads == t2.payloads
      && t1.records.Keys == t2.records.Keys
      && Files(t1).Keys == Files(t2).Keys
  {
    var t1, t2 := Upload(s, req1, env).store, Upload(s, req2, env).store;
    if Validate(req1).None? {
      assert t1.payloads == t2.payloads;
      assert t1.records.Keys == t2.records.Keys;
    }
    FileNamesFollowIds(t1, t2);
  }

  /** Where a store's records sit beside their payloads, an id that passes
      the `/s/` existence check has its payload and its record, and the
      record names that id. */
  lemma PageHasPayload(s: Store, id: string)
    requires Consistent(s)
    requires SchedulePage(s, id).Found?
    ensures GetIcs(s, id).Found?
    ensures GetMeta(s, id) == Found(SchedulePage(s, id).value.meta)
    ensures SchedulePage(s, id).value.meta.id == id
  {
  }

  /** As written, a save that fails part-way leaves the truncated payload
      in place: `/i/<id>` serves it although no record and no link exist. */
  lemma PartialPayloadAfterFailedSave(s: Store, req: UploadRequest, env: Env)
    requires IsHexId(env.id) && Validate(req).None?
    requires env.save.SaveFailed? && env.save.kept.Some?
    ensures var t := Upload(s, req, env).store;
      && GetIcs(t, env.id).Found? && GetIcs(t, env.id).value <= req.file.value.content
      && GetMeta(t, env.id) == GetMeta(s, env.id)
  {
  }

  /** A file of `s` that belongs to an id other than `id` is a file of `t`
      with the same content, when the two stores agree away from `id`. */
  lemma SameFileAwayFrom(s: Store, t: Store, id: string, path: string)
    requires s.payloads - {id} == t.payloads - {id} && s.records - {id} == t.records - {id}
    requires path in Files(s) && path != PayloadFile(id) && path != RecordFile(id)
    ensures path in Files(t) && Files(t)[path] == Files(s)[path]
  {
    var x := FileOwner(s, path);
    if x in s.payloads && path == PayloadFile(x) {
      MapAwayFrom(s.payloads, t.payloads, id, x);
      PayloadFileLookup(s, x);
      PayloadFileLookup(t, x);
    } else {
      MapAwayFrom(s.records, t.records, id, x);
      RecordFileLookup(s, x);
      RecordFileLookup(t, x);
    }
  }

  /** Two maps equal away from `id` agree on every other key. */
  lemma MapAwayFrom<V>(m: map<string, V>, n: map<string, V>, id: string, x: string)
    requires m - {id} == n - {id} && x in m && x != id
    ensures x in n && n[x] == m[x]
  {
    assert x in m - {id};
    assert (m - {id})[x] == (n - {id})[x];
  }

  /** Whatever happens, an upload touches at most two files, `id.ics` and
      `id.json`, named after the generated id alone. */
  lemma UploadTouchesOnlyItsFiles(s: Store, req: UploadRequest, env: Env, path: string)
    requires IsHexId(env.id)
    requires path != PayloadFile(env.id) && path != RecordFile(env.id)
    ensures var t := Upload(s, req, env).store;
      && (path in Files(t) <==> path in Files(s))
      && (path in Files(s) ==> Files(t)[path] == Files(s)[path])
  {
    var t := Upload(s, req, env).store;
    if path in Files(s) {
      SameFileAwayFrom(s, t, env.id, path);
    }
    if path in Files(t) {
      SameFileAwayFrom(t, s, env.id, path);
    }
  }
}
