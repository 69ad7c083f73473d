/** The translation-request orchestrator of the form component as a pure
    state machine: each handler of the component is a function from the old
    view to the new one. The `Form` class in module `FormComponent` is proved
    against these functions, and the lemmas below state what the handlers
    guarantee over whole runs, in particular that out-of-order responses
    never leave a stale translation on screen. */
module Orchestrator {
  import opened Options
  import opened Languages

  /** The arguments of one call to the debounced `translate`. */
  datatype Request = Request(text: string, fromLanguage: string, toLanguage: string, loadingId: nat)

  /** The arguments of one call to the debounced history save. */
  datatype SaveCall = SaveCall(language: Language, text: string)

  /** What the lookup resolves with: the echoed request id and the
      translated text, before trimming. */
  datatype Response = Response(loadingId: nat, data: string)

  /** Everything the handlers read or write: the component state, the two
      module counters, the stored default source id, and the logs of
      outgoing requests and history saves. */
  datatype View = View(
    source: string,
    translation: string,
    languages: Pair,
    loading: bool,
    loadingId: nat,
    loadedId: nat,
    storedDefault: Option<string>,
    sent: seq<Request>,
    saves: seq<SaveCall>)

  /** The invariant every handler keeps: request ids are 1, 2, ...,
      `loadingId` in dispatch order, no applied id exceeds the last
      dispatched one, and the direction is one of the two the form knows. */
  ghost predicate Inv(v: View) {
    && (v.languages == Pair(Uk, Cs) || v.languages == Pair(Cs, Uk))
    && v.loadedId <= v.loadingId
    && |v.sent| == v.loadingId
    && (forall i :: 0 <= i < |v.sent| ==> v.sent[i].loadingId == i + 1)
  }

  /** The first render: empty text, Ukrainian to Czech, not loading, both
      counters zero, with whatever the store holds. */
  function Initial(storedDefault: Option<string>): (r: View)
    ensures Inv(r)
    ensures r.source == "" && r.translation == "" && !r.loading
    ensures r.languages == Pair(Uk, Cs)
    ensures r.loadingId == 0 && r.loadedId == 0
    ensures r.sent == [] && r.saves == []
    ensures r.storedDefault == storedDefault
  {
    View("", "", Pair(Uk, Cs), false, 0, 0, storedDefault, [], [])
  }

  /** The startup effect: the direction is restored from the stored default. */
  function Restore(v: View): (r: View)
    ensures r.languages == StartupPair(v.storedDefault)
    ensures r.(languages := v.languages) == v
    ensures Inv(v) ==> Inv(r)
  {
    v.(languages := StartupPair(v.storedDefault))
  }

  /** `handleChangeSource(text, from, to)`: `None` is a missing argument,
      which defaults to the current pair's ids. The text is shown, a history
      save is scheduled under the current source language, the busy flag is
      raised, and a request stamped with a fresh id is handed to the
      debounced lookup. */
  function Change(v: View, text: string, from: Option<string>, to: Option<string>): (r: View)
    ensures r.source == text && r.loading
    ensures r.loadingId == v.loadingId + 1
    ensures r.sent == v.sent + [Request(text, from.GetOr(v.languages.source.id), to.GetOr(v.languages.target.id), r.loadingId)]
    ensures r.saves == v.saves + [SaveCall(v.languages.source, text)]
    ensures r.translation == v.translation && r.loadedId == v.loadedId
    ensures r.languages == v.languages && r.storedDefault == v.storedDefault
    ensures Inv(v) ==> Inv(r)
    ensures Inv(v) ==> forall i :: 0 <= i < |v.sent| ==> v.sent[i].loadingId < r.loadingId
  {
    var id := v.loadingId + 1;
    v.(source := text,
       loading := true,
       loadingId := id,
       sent := v.sent + [Request(text, from.GetOr(v.languages.source.id), to.GetOr(v.languages.target.id), id)],
       saves := v.saves + [SaveCall(v.languages.source, text)])
  }

  /** The first check of the response handler: only the answer to the most
      recently dispatched request clears the busy flag. */
  function FinishIfLatest(v: View, id: nat): (r: View)
    ensures id == v.loadingId ==> !r.loading
    ensures id != v.loadingId ==> r.loading == v.loading
    ensures r.(loading := v.loading) == v
  {
    if id == v.loadingId then v.(loading := false) else v
  }

  /** The second check of the response handler: an answer newer than every
      applied one advances `loadedId` and shows its trimmed text; any other
      answer is discarded. */
  function ApplyIfNewer(v: View, id: nat, data: string, trim: string -> string): (r: View)
    ensures v.loadedId < id ==> r.loadedId == id && r.translation == trim(data)
    ensures id <= v.loadedId ==> r == v
    ensures r.loadedId >= v.loadedId
    ensures r.(translation := v.translation, loadedId := v.loadedId) == v
  {
    if v.loadedId < id then v.(loadedId := id, translation := trim(data)) else v
  }

  /** The whole response handler: the busy check first, then the apply check. */
  function Respond(v: View, resp: Response, trim: string -> string): (r: View)
    ensures resp.loadingId == v.loadingId ==> !r.loading
    ensures resp.loadingId != v.loadingId ==> r.loading == v.loading
    ensures v.loadedId < resp.loadingId ==> r.loadedId == resp.loadingId && r.translation == trim(resp.data)
    ensures resp.loadingId <= v.loadedId ==> r.translation == v.translation && r.loadedId == v.loadedId
    ensures r.loadedId >= v.loadedId
    ensures r.(translation := v.translation, loadedId := v.loadedId, loading := v.loading) == v
    ensures Inv(v) && resp.loadingId <= v.loadingId ==> Inv(r)
  {
    ApplyIfNewer(FinishIfLatest(v, resp.loadingId), resp.loadingId, resp.data, trim)
  }

  /** The failure handler: the busy flag drops and nothing else changes. */
  function Fail(v: View): (r: View)
    ensures !r.loading
    ensures r.translation == v.translation && r.loadedId == v.loadedId && r.loadingId == v.loadingId
    ensures r.(loading := v.loading) == v
  {
    v.(loading := false)
  }

  /** `clearSource`: a text change to the empty string with default ids. */
  function Clear(v: View): (r: View)
    ensures r.source == "" && r.loading && r.loadingId == v.loadingId + 1
    ensures r.translation == v.translation && r.languages == v.languages
  {
    Change(v, "", None, None)
  }

  /** `flipLanguages`: the translation is cleared, the pair swapped, the
      unchanged source text re-sent from the old target to the old source,
      and the old target's id stored as the default source. The text change
      still sees the pre-flip pair (the swap only takes effect at the next
      render), so its history save is filed under the old source language. */
  function Flip(v: View): (r: View)
    ensures r.languages == FlipPair(v.languages)
    ensures r.translation == "" && r.source == v.source && r.loading
    ensures r.loadingId == v.loadingId + 1 && r.loadedId == v.loadedId
    ensures r.sent == v.sent + [Request(v.source, v.languages.target.id, v.languages.source.id, r.loadingId)]
    ensures r.saves == v.saves + [SaveCall(v.languages.source, v.source)]
    ensures r.storedDefault == Some(v.languages.target.id)
    ensures Inv(v) ==> Inv(r)
  {
    var oldSource := v.languages.source;
    var oldTarget := v.languages.target;
    Change(v, v.source, Some(oldTarget.id), Some(oldSource.id))
      .(translation := "", languages := FlipPair(v.languages), storedDefault := Some(oldTarget.id))
  }

  /** `clearSource` is exactly `handleChangeSource("")` given the current
      pair's ids explicitly. */
  lemma ClearIsChangeWithCurrentIds(v: View)
    ensures Clear(v) == Change(v, "", Some(v.languages.source.id), Some(v.languages.target.id))
  {
  }

  /** Flipping twice restores the pair and the source text and stores the
      original source id again, but the translation stays cleared: it is
      produced again by a new lookup, not swapped back. */
  lemma FlipTwice(v: View)
    ensures Flip(Flip(v)).languages == v.languages
    ensures Flip(Flip(v)).source == v.source
    ensures Flip(Flip(v)).storedDefault == Some(v.languages.source.id)
    ensures Flip(Flip(v)).translation == ""
    ensures Flip(Flip(v)).loadingId == v.loadingId + 2
  {
    FlipPairTwice(v.languages);
  }

  /** After a flip, the stored default restores at the next startup exactly
      the direction the flip chose. */
  lemma FlipThenRestore(v: View)
    requires Inv(v)
    ensures StartupPair(Flip(v).storedDefault) == Flip(v).languages
    ensures Restore(Flip(v)) == Flip(v)
  {
    StartupPairRestoresStoredSource(FlipPair(v.languages));
  }

  /** Under the invariant, request ids handed out are strictly increasing in
      dispatch order. */
  lemma SentIdsIncrease(v: View, i: nat, j: nat)
    requires Inv(v)
    requires i < j < |v.sent|
    ensures v.sent[i].loadingId < v.sent[j].loadingId
    ensures v.sent[j].loadingId <= v.loadingId
  {
  }

  // ---------------------------------------------------------------------
  // Responses delivered in any order

  /** Delivering responses one after another, in the given arrival order. */
  function Deliver(v: View, rs: seq<Response>, trim: string -> string): (r: View)
    decreases |rs|
  {
    if rs == [] then v else Deliver(Respond(v, rs[0], trim), rs[1..], trim)
  }

  /** The highest id among the responses (0 when there are none). */
  function MaxId(rs: seq<Response>): (m: nat)
    ensures forall i :: 0 <= i < |rs| ==> rs[i].loadingId <= m
    ensures |rs| > 0 ==> exists i :: 0 <= i < |rs| && rs[i].loadingId == m
    decreases |rs|
  {
    if rs == [] then 0
    else
      var rest := MaxId(rs[1..]);
      assert forall i :: 1 <= i < |rs| ==> rs[i] == rs[1..][i - 1];
      if rs[0].loadingId >= rest then rs[0].loadingId else rest
  }

  /** The position of the first response that carries the highest id. */
  function Winner(rs: seq<Response>): (k: nat)
    requires |rs| > 0
    ensures k < |rs| && rs[k].loadingId == MaxId(rs)
    ensures forall j :: 0 <= j < k ==> rs[j].loadingId < MaxId(rs)
    decreases |rs|
  {
    if |rs| == 1 || rs[0].loadingId >= MaxId(rs[1..]) then 0
    else
      var k := Winner(rs[1..]);
      assert forall j :: 1 <= j <= k ==> rs[j] == rs[1..][j - 1];
      1 + k
  }

  /** Responses whose ids do not exceed `loadedId` change neither the
      displayed translation nor `loadedId`. */
  lemma {:induction false} DeliverStale(v: View, rs: seq<Response>, trim: string -> string)
    requires forall i :: 0 <= i < |rs| ==> rs[i].loadingId <= v.loadedId
    ensures Deliver(v, rs, trim).translation == v.translation
    ensures Deliver(v, rs, trim).loadedId == v.loadedId
    decreases |rs|
  {
    if rs != [] {
      var w := Respond(v, rs[0], trim);
      assert forall i :: 0 <= i < |rs[1..]| ==> rs[1..][i] == rs[i + 1];
      DeliverStale(w, rs[1..], trim);
    }
  }

  /** Whatever the arrival order, once the responses are in the translation
      shown is the trimmed text of the first-arriving response with the
      highest id, and `loadedId` is that id, provided it exceeds the
      `loadedId` we started from. */
  lemma {:induction false} DeliverHighest(v: View, rs: seq<Response>, trim: string -> string)
    requires |rs| > 0 && v.loadedId < MaxId(rs)
    ensures Deliver(v, rs, trim).loadedId == MaxId(rs)
    ensures Deliver(v, rs, trim).translation == trim(rs[Winner(rs)].data)
    decreases |rs|
  {
    var w := Respond(v, rs[0], trim);
    var rest := rs[1..];
    assert forall i :: 0 <= i < |rest| ==> rest[i] == rs[i + 1];
    if |rs| == 1 {
      assert rest == [];
    } else if rs[0].loadingId >= MaxId(rest) {
      DeliverStale(w, rest, trim);
    } else {
      DeliverHighest(w, rest, trim);
    }
  }

  /** Without any response newer than `loadedId` the stored state of the
      display is untouched, and otherwise it advances: `loadedId` ends as
      the larger of the two. */
  lemma DeliverLoadedId(v: View, rs: seq<Response>, trim: string -> string)
    ensures Deliver(v, rs, trim).loadedId == if MaxId(rs) <= v.loadedId then v.loadedId else MaxId(rs)
  {
    if MaxId(rs) <= v.loadedId {
      DeliverStale(v, rs, trim);
    } else {
      DeliverHighest(v, rs, trim);
    }
  }

  /** Ids determine payloads: two responses carrying the same id carry the
      same text (each id names one request). */
  ghost predicate IdsDetermineData(rs: seq<Response>) {
    forall i, j :: 0 <= i < |rs| && 0 <= j < |rs| && rs[i].loadingId == rs[j].loadingId ==> rs[i].data == rs[j].data
  }

  /** The highest id depends only on which responses there are. */
  lemma SameResponsesSameMax(rs1: seq<Response>, rs2: seq<Response>)
    requires forall r :: r in rs1 <==> r in rs2
    ensures MaxId(rs1) == MaxId(rs2)
  {
    if |rs1| > 0 {
      var i1 :| 0 <= i1 < |rs1| && rs1[i1].loadingId == MaxId(rs1);
      assert rs1[i1] in rs2;
    }
    if |rs2| > 0 {
      var i2 :| 0 <= i2 < |rs2| && rs2[i2].loadingId == MaxId(rs2);
      assert rs2[i2] in rs1;
    }
  }

  /** Two deliveries of the same responses in different orders end with the
      same translation and the same `loadedId`. */
  lemma DeliverOrderIrrelevant(v: View, rs1: seq<Response>, rs2: seq<Response>, trim: string -> string)
    requires forall r :: r in rs1 <==> r in rs2
    requires IdsDetermineData(rs1)
    ensures Deliver(v, rs1, trim).translation == Deliver(v, rs2, trim).translation
    ensures Deliver(v, rs1, trim).loadedId == Deliver(v, rs2, trim).loadedId
  {
    SameResponsesSameMax(rs1, rs2);
    var m := MaxId(rs1);
    if m <= v.loadedId {
      DeliverStale(v, rs1, trim);
      DeliverStale(v, rs2, trim);
    } else {
      DeliverHighest(v, rs1, trim);
      DeliverHighest(v, rs2, trim);
      var w2 := rs2[Winner(rs2)];
      assert w2 in rs1;
      var j :| 0 <= j < |rs1| && rs1[j] == w2;
      assert rs1[j].loadingId == rs1[Winner(rs1)].loadingId;
    }
  }

  /** After a batch of responses the busy flag is down exactly when it was
      already down or one of them answered the latest request; no response
      can raise it. */
  lemma {:induction false} DeliverLoading(v: View, rs: seq<Response>, trim: string -> string)
    ensures Deliver(v, rs, trim).loadingId == v.loadingId
    ensures Deliver(v, rs, trim).loading == (v.loading && forall i :: 0 <= i < |rs| ==> rs[i].loadingId != v.loadingId)
    decreases |rs|
  {
    if rs != [] {
      var w := Respond(v, rs[0], trim);
      assert forall i :: 0 <= i < |rs[1..]| ==> rs[1..][i] == rs[i + 1];
      DeliverLoading(w, rs[1..], trim);
      assert (forall i :: 0 <= i < |rs| ==> rs[i].loadingId != v.loadingId)
         == (rs[0].loadingId != v.loadingId && forall i :: 0 <= i < |rs[1..]| ==> rs[1..][i].loadingId != v.loadingId);
    }
  }

  /** Responses never change the text being typed, the direction, the
      dispatched requests or the stored default, and they keep the
      invariant when their ids were actually handed out. */
  lemma {:induction false} DeliverKeeps(v: View, rs: seq<Response>, trim: string -> string)
    requires Inv(v)
    requires forall i :: 0 <= i < |rs| ==> rs[i].loadingId <= v.loadingId
    ensures Inv(Deliver(v, rs, trim))
    ensures Deliver(v, rs, trim).source == v.source && Deliver(v, rs, trim).languages == v.languages
    ensures Deliver(v, rs, trim).sent == v.sent && Deliver(v, rs, trim).storedDefault == v.storedDefault
    decreases |rs|
  {
    if rs != [] {
      var w := Respond(v, rs[0], trim);
      assert forall i :: 0 <= i < |rs[1..]| ==> rs[1..][i] == rs[i + 1];
      DeliverKeeps(w, rs[1..], trim);
    }
  }

  /** The out-of-order scenario: "Hi" is sent as request 1, "Hi t" as
      request 2; the answer to 2 arrives first and is shown, the late answer
      to 1 is discarded. */
  lemma OutOfOrderScenario(trim: string -> string, hi: string, hiT: string)
    ensures
      var v := Change(Change(Initial(None), "Hi", None, None), "Hi t", None, None);
      var after2 := Respond(v, Response(2, hiT), trim);
      var after1 := Respond(after2, Response(1, hi), trim);
      && v.sent == [Request("Hi", "uk", "cs", 1), Request("Hi t", "uk", "cs", 2)]
      && after2.translation == trim(hiT) && !after2.loading
      && after1 == after2
  {
  }

  // ---------------------------------------------------------------------
  // Arbitrary runs of user events and responses

  /** One thing that can happen to the form. */
  datatype Event =
    | Typed(text: string, from: Option<string>, to: Option<string>)
    | Cleared
    | Flipped
    | Answered(resp: Response)
    | Failed
    | Restored

  /** The handler an event runs. */
  function Step(v: View, e: Event, trim: string -> string): (r: View) {
    match e
    case Typed(text, from, to) => Change(v, text, from, to)
    case Cleared => Clear(v)
    case Flipped => Flip(v)
    case Answered(resp) => Respond(v, resp, trim)
    case Failed => Fail(v)
    case Restored => Restore(v)
  }

  /** An event can happen in a view unless it answers a request that was
      never sent: the lookup echoes the id it was given. */
  ghost predicate Allowed(v: View, e: Event) {
    e.Answered? ==> e.resp.loadingId <= v.loadingId
  }

  /** The events of a run, handled one after another. */
  function Run(v: View, es: seq<Event>, trim: string -> string): (r: View)
    decreases |es|
  {
    if es == [] then v else Run(Step(v, es[0], trim), es[1..], trim)
  }

  /** Every event of the run is allowed where it happens. */
  ghost predicate Admissible(v: View, es: seq<Event>, trim: string -> string)
    decreases |es|
  {
    es == [] || (Allowed(v, es[0]) && Admissible(Step(v, es[0], trim), es[1..], trim))
  }

  /** One allowed event keeps the invariant, never lowers either counter and
      never retracts a dispatched request. */
  lemma StepKeeps(v: View, e: Event, trim: string -> string)
    requires Inv(v) && Allowed(v, e)
    ensures Inv(Step(v, e, trim))
    ensures v.loadingId <= Step(v, e, trim).loadingId
    ensures v.loadedId <= Step(v, e, trim).loadedId
    ensures v.sent <= Step(v, e, trim).sent
  {
  }

  /** Over any admissible run: `loadedId <= loadingId` and the request log
      stay intact, `loadingId` and `loadedId` never decrease, and the
      requests sent earlier are still the first ones of the log. */
  lemma {:induction false} RunKeeps(v: View, es: seq<Event>, trim: string -> string)
    requires Inv(v) && Admissible(v, es, trim)
    ensures Inv(Run(v, es, trim))
    ensures v.loadingId <= Run(v, es, trim).loadingId
    ensures v.loadedId <= Run(v, es, trim).loadedId
    ensures v.sent <= Run(v, es, trim).sent
    decreases |es|
  {
    if es != [] {
      StepKeeps(v, es[0], trim);
      RunKeeps(Step(v, es[0], trim), es[1..], trim);
    }
  }

  /** Each text change, clear or flip in a run dispatches exactly one
      request, so the final `loadingId` counts them. */
  function Dispatches(es: seq<Event>): (n: nat)
    ensures n <= |es|
    decreases |es|
  {
    if es == [] then 0
    else (if es[0].Typed? || es[0].Cleared? || es[0].Flipped? then 1 else 0) + Dispatches(es[1..])
  }

  lemma {:induction false} RunCountsDispatches(v: View, es: seq<Event>, trim: string -> string)
    ensures Run(v, es, trim).loadingId == v.loadingId + Dispatches(es)
    ensures |Run(v, es, trim).sent| == |v.sent| + Dispatches(es)
    decreases |es|
  {
    if es != [] {
      RunCountsDispatches(Step(v, es[0], trim), es[1..], trim);
    }
  }
}
