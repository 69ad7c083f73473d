/** A value that may be absent: a JavaScript `undefined`/`null` or a missing
    storage key. */
module Options {

  datatype Option<T> = None | Some(value: T) {

    /** The wrapped value, or `default` when absent (JavaScript's
        `x || default` and default-parameter semantics on a missing value). */
    function GetOr(default: T): (r: T)
      ensures Some? ==> r == value
      ensures None? ==> r == default
    {
      match this
      case Some(v) => v
      case None => default
    }
  }
}

/** The two language records of the form component and the language
    direction (source, target) it displays. */
module Languages {
  import opened Options

  /** Which transliteration the record carries; the transforms themselves
      are not part of this model. */
  datatype Script = CyrilToLatin | LatinToCyril

  datatype Language = Language(id: string, name: string, transliterate: Script)

  /** `languageUk`: Ukrainian, whose secondary rendering is Cyrillic to Latin. */
  const Uk: Language := Language("uk", "Українською", CyrilToLatin)

  /** `languageCs`: Czech, whose secondary rendering is Latin to Cyrillic. */
  const Cs: Language := Language("cs", "Česky", LatinToCyril)

  /** The direction shown by the form: always fully populated, and
      `source != target` is not enforced. */
  datatype Pair = Pair(source: Language, target: Language)

  /** The pair after the swap button: source and target exchanged. */
  function FlipPair(p: Pair): (r: Pair)
    ensures r.source == p.target && r.target == p.source
  {
    Pair(p.target, p.source)
  }

  /** Flipping twice gives back the pair we started from. */
  lemma FlipPairTwice(p: Pair)
    ensures FlipPair(FlipPair(p)) == p
  {
  }

  /** Direction restored at startup from the stored default source id.
      A missing key reads as the empty string; only "cs" selects Czech as
      the source, every other value gives the hardcoded Ukrainian-to-Czech
      pair. */
  function StartupPair(stored: Option<string>): (r: Pair)
    ensures r == Pair(Cs, Uk) <==> stored == Some("cs")
    ensures r == Pair(Uk, Cs) <==> stored != Some("cs")
  {
    var defaultSource := stored.GetOr("");
    if defaultSource == Cs.id then Pair(Cs, Uk) else Pair(Uk, Cs)
  }

  /** The two directions the form can show are each other's swap: flipping
      the one restored from "cs" gives the one restored from an empty store,
      and back. */
  lemma StartupPairFlips()
    ensures FlipPair(Pair(Uk, Cs)) == Pair(Cs, Uk)
    ensures FlipPair(Pair(Cs, Uk)) == Pair(Uk, Cs)
    ensures FlipPair(StartupPair(Some("cs"))) == StartupPair(None)
    ensures FlipPair(StartupPair(None)) == StartupPair(Some("cs"))
  {
  }

  /** Storing the id of a pair's source and restoring from it gives back that
      pair, for the two pairs the form can show. */
  lemma StartupPairRestoresStoredSource(p: Pair)
    requires p == Pair(Uk, Cs) || p == Pair(Cs, Uk)
    ensures StartupPair(Some(p.source.id)) == p
  {
  }
}
