/** The form component as it runs: the two module-level counters and the
    component state are mutable fields, and each handler is a method that
    updates them step by step. Every method is proved to take the state
    exactly where the corresponding function of module `Orchestrator` says,
    so the lemmas proved there hold of the running component. */
module FormComponent {
  import opened Options
  import opened Languages
  import opened Orchestrator

  class Form {
    /** Component state. */
    var source: string
    var translation: string
    var languages: Pair
    var loading: bool

    /** The module counters: the id of the last request handed out and the
        id of the last response shown. */
    var loadingId: nat
    var loadedId: nat

    /** The "last translation source" entry of the browser store. */
    var storedDefault: Option<string>

    /** Calls made to the debounced lookup and to the debounced history
        save, oldest first. */
    ghost var sent: seq<Request>
    ghost var saves: seq<SaveCall>

    /** `String.prototype.trim`, left uninterpreted. */
    const trim: string -> string

    ghost function State(): View
      reads this
    {
      View(source, translation, languages, loading, loadingId, loadedId, storedDefault, sent, saves)
    }

    ghost predicate Valid()
      reads this
    {
      Inv(State())
    }

    /** The first render, with the store holding `stored`. */
    constructor (stored: Option<string>, trim: string -> string)
      ensures Valid() && State() == Initial(stored)
      ensures this.trim == trim
    {
      source := "";
      translation := "";
      languages := Pair(Uk, Cs);
      loading := false;
      loadingId := 0;
      loadedId := 0;
      storedDefault := stored;
      sent := [];
      saves := [];
      this.trim := trim;
    }

    /** The startup effect restoring the direction from the store. */
    method RestoreDirection()
      requires Valid()
      modifies this
      ensures Valid() && State() == Restore(old(State()))
      ensures languages == StartupPair(storedDefault)
    {
      var defaultSource := storedDefault.GetOr("");
      if defaultSource == Cs.id {
        languages := Pair(Cs, Uk);
      } else {
        languages := Pair(Uk, Cs);
      }
    }

    /** `handleChangeSource`; `None` stands for an omitted argument. */
    method HandleChangeSource(text: string, fromLanguage: Option<string>, toLanguage: Option<string>)
      requires Valid()
      modifies this
      ensures Valid() && State() == Change(old(State()), text, fromLanguage, toLanguage)
      ensures source == text && loading && loadingId == old(loadingId) + 1
      ensures sent[|sent| - 1].loadingId == loadingId
    {
      var from := fromLanguage.GetOr(languages.source.id);
      var to := toLanguage.GetOr(languages.target.id);
      source := text;
      saves := saves + [SaveCall(languages.source, text)];
      loading := true;
      loadingId := loadingId + 1;
      sent := sent + [Request(text, from, to, loadingId)];
    }

    /** First check of the response handler. */
    method FinishIfLatest(id: nat)
      requires Valid()
      modifies this
      ensures Valid() && State() == Orchestrator.FinishIfLatest(old(State()), id)
    {
      if id == loadingId {
        loading := false;
      }
    }

    /** Second check of the response handler. */
    method ApplyIfNewer(id: nat, data: string)
      requires Valid() && id <= loadingId
      modifies this
      ensures Valid() && State() == Orchestrator.ApplyIfNewer(old(State()), id, data, trim)
    {
      if loadedId < id {
        loadedId := id;
        translation := trim(data);
      }
    }

    /** The response handler: the lookup resolved with `data` for request
        `id`, which it echoes from a request already handed out. */
    method OnResponse(id: nat, data: string)
      requires Valid() && id <= loadingId
      modifies this
      ensures Valid() && State() == Respond(old(State()), Response(id, data), trim)
      ensures old(loadedId) < id ==> translation == trim(data) && loadedId == id
      ensures id <= old(loadedId) ==> translation == old(translation) && loadedId == old(loadedId)
    {
      FinishIfLatest(id);
      ApplyIfNewer(id, data);
    }

    /** The failure handler. */
    method OnFailure()
      requires Valid()
      modifies this
      ensures Valid() && State() == Fail(old(State()))
      ensures !loading && translation == old(translation)
    {
      loading := false;
    }

    /** `clearSource`. */
    method ClearSource()
      requires Valid()
      modifies this
      ensures Valid() && State() == Clear(old(State()))
      ensures State() == Change(old(State()), "", Some(old(languages).source.id), Some(old(languages).target.id))
    {
      HandleChangeSource("", None, None);
    }

    /** `flipLanguages`. The swap of the pair is applied by the framework at
        the next render, so the text change made from inside the handler
        still reads the old pair; the assignment to `languages` therefore
        comes after it. */
    method FlipLanguages()
      requires Valid()
      modifies this
      ensures Valid() && State() == Flip(old(State()))
      ensures languages == FlipPair(old(languages)) && translation == ""
      ensures storedDefault == Some(old(languages).target.id)
      ensures StartupPair(storedDefault) == languages
    {
      var oldSource := languages.source;
      var oldTarget := languages.target;
      translation := "";
      HandleChangeSource(source, Some(oldTarget.id), Some(oldSource.id));
      languages := Pair(oldTarget, oldSource);
      storedDefault := Some(oldTarget.id);
      FlipThenRestore(old(State()));
    }
  }
}
