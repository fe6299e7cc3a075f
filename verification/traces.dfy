/** Sequences of uploads against one upload directory: the store stays
    consistent, and what was stored for a share link's id stays in place
    for as long as later uploads draw ids not yet in use. */
module Traces {
  import opened Gateway
  import opened ArtifactStore

  /** One call of the upload route with what it took from outside. */
  datatype Step = Step(req: UploadRequest, env: Env)

  /** Every step's id has the form `uuid4().hex` gives. */
  ghost predicate HexIds(steps: seq<Step>) {
    forall i :: 0 <= i < |steps| ==> IsHexId(steps[i].env.id)
  }

  /** The store after running the uploads in order. */
  function Run(s: Store, steps: seq<Step>): Store
    requires HexIds(steps)
    decreases |steps|
  {
    if |steps| == 0 then s
    else Run(Upload(s, steps[0].req, steps[0].env).store, steps[1..])
  }

  /** Each upload's id names no file that exists when it runs. The route
      does not check this; `uuid4` makes a clash improbable. */
  ghost predicate FreshRun(s: Store, steps: seq<Step>)
    requires HexIds(steps)
    decreases |steps|
  {
    |steps| == 0 ||
    (&& steps[0].env.id !in s.payloads
     && steps[0].env.id !in s.records
     && FreshRun(Upload(s, steps[0].req, steps[0].env).store, steps[1..]))
  }

  /** The empty upload directory is consistent. */
  lemma EmptyConsistent()
    ensures Consistent(Store(map[], map[]))
  {
  }

  /** Whatever the requests and however the writes go, every record keeps
      its payload beside it and names its own id. */
  lemma {:induction false} RunKeepsConsistent(s: Store, steps: seq<Step>)
    requires HexIds(steps) && Consistent(s)
    ensures Consistent(Run(s, steps))
    decreases |steps|
  {
    if |steps| > 0 {
      RunKeepsConsistent(Upload(s, steps[0].req, steps[0].env).store, steps[1..]);
    }
  }

  /** What is stored for `id` survives any run of uploads with fresh ids. */
  lemma {:induction false} FreshRunKeeps(s: Store, steps: seq<Step>, id: string)
    requires HexIds(steps) && FreshRun(s, steps)
    requires id in s.payloads
    ensures var t := Run(s, steps);
      && GetIcs(t, id) == GetIcs(s, id)
      && GetMeta(t, id) == GetMeta(s, id)
      && SchedulePage(t, id) == SchedulePage(s, id)
    decreases |steps|
  {
    if |steps| > 0 {
      var next := Upload(s, steps[0].req, steps[0].env).store;
      UploadLeavesOtherIds(s, steps[0].req, steps[0].env, id);
      FreshRunKeeps(next, steps[1..], id);
    }
  }

  /** After a successful upload and any run of later uploads with fresh
      ids, the link's id still passes the `/s/` existence check with the
      upload's record, and `/i/<id>` still serves its bytes. */
  lemma LinkStaysValid(s: Store, first: Step, later: seq<Step>)
    requires IsHexId(first.env.id) && HexIds(later)
    requires Upload(s, first.req, first.env).reply.Shared?
    requires FreshRun(Upload(s, first.req, first.env).store, later)
    ensures var out := Upload(s, first.req, first.env);
      var t := Run(out.store, later);
      var meta := Meta(first.env.id, DisplayName(first.req.name),
                       first.env.sanitize(first.req.file.value.filename));
      && SchedulePage(t, LastSegment(out.reply.link)) == Found(Page(first.env.id, meta))
      && GetIcs(t, first.env.id) == Found(first.req.file.value.content)
  {
    var out := Upload(s, first.req, first.env);
    UploadThenGet(s, first.req, first.env);
    FreshRunKeeps(out.store, later, first.env.id);
  }

  /** Without freshness the guarantee is gone: a later successful upload
      that draws an id already in use replaces that id's payload and
      record, so the earlier link's id now leads to the later upload. */
  lemma ReusedIdReplaces(s: Store, first: Step, second: Step)
    requires IsHexId(first.env.id) && second.env.id == first.env.id
    requires Upload(s, first.req, first.env).reply.Shared?
    requires Upload(Upload(s, first.req, first.env).store, second.req, second.env).reply.Shared?
    ensures var mid := Upload(s, first.req, first.env).store;
      var t := Upload(mid, second.req, second.env).store;
      && GetIcs(mid, first.env.id).Found?
      && GetIcs(t, first.env.id) == Found(second.req.file.value.content)
      && GetMeta(t, first.env.id).value.origName == second.env.sanitize(second.req.file.value.filename)
  {
  }
}
