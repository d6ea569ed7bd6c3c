/** The coordinator of `generate_bilingual_resources_async`, run sequentially: the required
    languages, the loop that takes one reader result at a time and starts every pair whose three
    languages are in, the wait for the started pairs, and the final verdict. Readers finish in any
    order, so the loop takes the next language from those still outstanding by an arbitrary
    choice; what a reader reports and what processing a pair yields are parameters. */
module Coordinator {
  import opened Types
  import opened BilingualSet

  /** One language's tables, file by file. */
  type LanguageData = map<XmlFile, Table>

  /** The language every pair needs besides its own two, for the fallback texts. */
  const FallbackLanguage: Language := "English"

  // ---------------------------------------------------------------------------------------
  // The required languages
  // ---------------------------------------------------------------------------------------

  /** English, every listed language and both languages of every pair. */
  function RequiredSet(languageToProcess: seq<Language>, pairs: seq<Pair>): set<Language> {
    {FallbackLanguage} + (set l | l in languageToProcess) + (set p | p in pairs :: p.primary)
      + (set p | p in pairs :: p.secondary)
  }

  /** The three loops that fill `required_languages`. */
  method CollectRequiredLanguages(languageToProcess: seq<Language>, pairs: seq<Pair>) returns (required: set<Language>)
    ensures required == RequiredSet(languageToProcess, pairs)
  {
    required := {FallbackLanguage};
    for i := 0 to |languageToProcess|
      invariant required == {FallbackLanguage} + (set l | l in languageToProcess[..i])
    {
      assert languageToProcess[..i + 1] == languageToProcess[..i] + [languageToProcess[i]];
      required := required + {languageToProcess[i]};
    }
    assert languageToProcess[..|languageToProcess|] == languageToProcess;
    ghost var listed := required;
    for i := 0 to |pairs|
      invariant required == listed + (set p | p in pairs[..i] :: p.primary) + (set p | p in pairs[..i] :: p.secondary)
    {
      assert pairs[..i + 1] == pairs[..i] + [pairs[i]];
      required := required + {pairs[i].primary};
      required := required + {pairs[i].secondary};
    }
    assert pairs[..|pairs|] == pairs;
  }

  /** The set always holds English and both languages of every pair. */
  lemma RequiredCoversPairs(languageToProcess: seq<Language>, pairs: seq<Pair>)
    ensures FallbackLanguage in RequiredSet(languageToProcess, pairs)
    ensures forall l | l in languageToProcess :: l in RequiredSet(languageToProcess, pairs)
    ensures forall p | p in pairs :: p.primary in RequiredSet(languageToProcess, pairs) && p.secondary in RequiredSet(languageToProcess, pairs)
  {
  }

  /** Once the bilingual set has been read, its pairs add nothing: `acquire_bilingual_set` has
      already listed their languages, so the required set is the list plus English. */
  lemma RequiredAfterAcquire(languageToProcess: seq<Language>, lines: seq<string>)
    ensures var langs := RegisterAll(languageToProcess, Accepted(lines));
            RequiredSet(langs, Accepted(lines)) == {FallbackLanguage} + (set l | l in langs)
  {
    RegisterAllProperties(languageToProcess, Accepted(lines));
  }

  // ---------------------------------------------------------------------------------------
  // The rescan of the pending pairs
  // ---------------------------------------------------------------------------------------

  /** A pair can start once its primary, its secondary and English have been read. */
  predicate Ready(readData: map<Language, LanguageData>, p: Pair) {
    p.primary in readData && p.secondary in readData && FallbackLanguage in readData
  }

  /** The pending pairs that start now, in pending order. */
  function ReadyPairs(readData: map<Language, LanguageData>, pending: seq<Pair>): seq<Pair> {
    if pending == [] then []
    else if Ready(readData, pending[0]) then [pending[0]] + ReadyPairs(readData, pending[1..])
    else ReadyPairs(readData, pending[1..])
  }

  /** The pending pairs that keep waiting, in pending order. */
  function StillPending(readData: map<Language, LanguageData>, pending: seq<Pair>): seq<Pair> {
    if pending == [] then []
    else if Ready(readData, pending[0]) then StillPending(readData, pending[1..])
    else [pending[0]] + StillPending(readData, pending[1..])
  }

  /** The rescan splits the pending pairs: every pair goes to exactly one side, the started ones
      are ready and the waiting ones are not. */
  lemma {:induction false} RescanPartition(readData: map<Language, LanguageData>, pending: seq<Pair>)
    ensures multiset(ReadyPairs(readData, pending)) + multiset(StillPending(readData, pending)) == multiset(pending)
    ensures forall p | p in ReadyPairs(readData, pending) :: Ready(readData, p)
    ensures forall p | p in StillPending(readData, pending) :: !Ready(readData, p)
  {
    if pending != [] {
      RescanPartition(readData, pending[1..]);
      assert pending == [pending[0]] + pending[1..];
    }
  }

  /** The `for pair in pending_pairs` loop of one coordinator step. */
  method RescanPending(readData: map<Language, LanguageData>, pending: seq<Pair>) returns (started: seq<Pair>, stillPending: seq<Pair>)
    ensures started == ReadyPairs(readData, pending)
    ensures stillPending == StillPending(readData, pending)
  {
    started := [];
    stillPending := [];
    var i := 0;
    while i < |pending|
      invariant 0 <= i <= |pending|
      invariant started + ReadyPairs(readData, pending[i..]) == ReadyPairs(readData, pending)
      invariant stillPending + StillPending(readData, pending[i..]) == StillPending(readData, pending)
    {
      var pair := pending[i];
      assert pending[i..][1..] == pending[i + 1..];
      if pair.primary in readData && pair.secondary in readData && FallbackLanguage in readData {
        assert started + ReadyPairs(readData, pending[i..]) == (started + [pair]) + ReadyPairs(readData, pending[i + 1..]);
        started := started + [pair];
      } else {
        assert stillPending + StillPending(readData, pending[i..]) == (stillPending + [pair]) + StillPending(readData, pending[i + 1..]);
        stillPending := stillPending + [pair];
      }
      i := i + 1;
    }
  }

  // ---------------------------------------------------------------------------------------
  // Errors and the wait for the started pairs
  // ---------------------------------------------------------------------------------------

  /** The errors the readers of `arrivals` reported, in arrival order. */
  function ReaderErrors(arrivals: seq<Language>, read: Language -> Result<LanguageData>): seq<Error> {
    if arrivals == [] then []
    else (if read(arrivals[0]).Err? then [read(arrivals[0]).error] else []) + ReaderErrors(arrivals[1..], read)
  }

  /** No reader error was recorded exactly when every reader succeeded. */
  lemma {:induction false} NoReaderErrorIff(arrivals: seq<Language>, read: Language -> Result<LanguageData>)
    ensures ReaderErrors(arrivals, read) == [] <==> forall l | l in arrivals :: read(l).Ok?
  {
    if arrivals != [] {
      NoReaderErrorIff(arrivals[1..], read);
      assert forall l | l in arrivals :: l == arrivals[0] || l in arrivals[1..];
    }
  }

  /** Every recorded reader error is one a reader of `arrivals` reported. */
  lemma {:induction false} ReaderErrorsFrom(arrivals: seq<Language>, read: Language -> Result<LanguageData>)
    ensures forall e | e in ReaderErrors(arrivals, read) :: exists l | l in arrivals :: read(l) == Err(e)
  {
    if arrivals != [] {
      ReaderErrorsFrom(arrivals[1..], read);
      forall e | e in ReaderErrors(arrivals, read) ensures exists l | l in arrivals :: read(l) == Err(e) {
        if e !in ReaderErrors(arrivals[1..], read) {
          assert read(arrivals[0]) == Err(e);
        } else {
          var l :| l in arrivals[1..] && read(l) == Err(e);
          assert l in arrivals;
        }
      }
    }
  }

  /** The started pairs whose processing succeeded, in start order. */
  function Succeeded(started: seq<Pair>, process: Pair -> Option<Error>): seq<Pair> {
    if started == [] then []
    else (if process(started[0]).None? then [started[0]] else []) + Succeeded(started[1..], process)
  }

  /** The errors of the started pairs whose processing failed, in start order. */
  function Failures(started: seq<Pair>, process: Pair -> Option<Error>): seq<Error> {
    if started == [] then []
    else (if process(started[0]).Some? then [process(started[0]).value] else []) + Failures(started[1..], process)
  }

  /** No processing failed exactly when every started pair succeeded, and then every started pair
      yields a message. */
  lemma {:induction false} NoFailureIff(started: seq<Pair>, process: Pair -> Option<Error>)
    ensures Failures(started, process) == [] <==> forall p | p in started :: process(p).None?
    ensures Failures(started, process) == [] ==> Succeeded(started, process) == started
    ensures forall e | e in Failures(started, process) :: exists p | p in started :: process(p) == Some(e)
  {
    if started != [] {
      NoFailureIff(started[1..], process);
      assert forall p | p in started :: p == started[0] || p in started[1..];
      assert started == [started[0]] + started[1..];
      forall e | e in Failures(started, process) ensures exists p | p in started :: process(p) == Some(e) {
        if e !in Failures(started[1..], process) {
          assert process(started[0]) == Some(e);
        } else {
          var p :| p in started[1..] && process(p) == Some(e);
          assert p in started;
        }
      }
    }
  }

  /** The loop over `processing_handles`: a pair that succeeded gives a message, one that failed
      adds its error. */
  method AwaitProcessing(started: seq<Pair>, process: Pair -> Option<Error>) returns (messages: seq<Pair>, failures: seq<Error>)
    ensures messages == Succeeded(started, process)
    ensures failures == Failures(started, process)
  {
    messages := [];
    failures := [];
    for i := 0 to |started|
      invariant messages + Succeeded(started[i..], process) == Succeeded(started, process)
      invariant failures + Failures(started[i..], process) == Failures(started, process)
    {
      assert started[i..][1..] == started[i + 1..];
      match process(started[i]) {
        case None =>
          assert messages + Succeeded(started[i..], process) == (messages + [started[i]]) + Succeeded(started[i + 1..], process);
          messages := messages + [started[i]];
        case Some(e) =>
          assert failures + Failures(started[i..], process) == (failures + [e]) + Failures(started[i + 1..], process);
          failures := failures + [e];
      }
    }
  }

  /** The final verdict: the pairs still waiting add one error at the end, and the first error
      of all is returned. */
  function Verdict(pending: seq<Pair>, errors: seq<Error>, messages: seq<Pair>): Result<seq<Pair>> {
    var all := errors + (if pending != [] then [XmlProcessingFailed(PairsMissingData(pending))] else []);
    if all != [] then Err(all[0]) else Ok(messages)
  }

  /** The verdict is Ok exactly when there is no error and nothing is waiting; otherwise it is the
      first recorded error, or the missing-data error when only pairs are waiting. */
  lemma VerdictOutcome(pending: seq<Pair>, errors: seq<Error>, messages: seq<Pair>)
    ensures Verdict(pending, errors, messages).Ok? <==> errors == [] && pending == []
    ensures Verdict(pending, errors, messages).Ok? ==> Verdict(pending, errors, messages).value == messages
    ensures errors != [] ==> Verdict(pending, errors, messages) == Err(errors[0])
    ensures errors == [] && pending != [] ==> Verdict(pending, errors, messages) == Err(XmlProcessingFailed(PairsMissingData(pending)))
  {
  }

  // ---------------------------------------------------------------------------------------
  // The orchestrator after the bilingual set has been read
  // ---------------------------------------------------------------------------------------

  /** What the run after `acquire_bilingual_set` yields for the pairs `pairs`. It succeeds exactly
      when every required language was read and every pair was processed, with one message per
      pair; a failure is an error some reader or some processor reported, or the missing-data
      error. `outputDirCreated` says whether the shared output directory could be made. */
  method CoordinatePairs(languageToProcess: seq<Language>, pairs: seq<Pair>, read: Language -> Result<LanguageData>,
                         outputDirCreated: bool, process: Pair -> Option<Error>)
    returns (r: Result<seq<Pair>>)
    ensures pairs == [] ==> r == Ok([])
    ensures pairs != [] && !outputDirCreated ==> r == Err(IoError)
    ensures pairs != [] && outputDirCreated ==>
              (r.Ok? <==> (forall l | l in RequiredSet(languageToProcess, pairs) :: read(l).Ok?)
                          && (forall p | p in pairs :: process(p).None?))
    ensures r.Ok? ==> multiset(r.value) == multiset(pairs)
    ensures pairs != [] && outputDirCreated && (exists l | l in RequiredSet(languageToProcess, pairs) :: read(l).Err?) ==>
              r.Err? && exists l | l in RequiredSet(languageToProcess, pairs) :: read(l) == Err(r.error)
    ensures r.Err? && pairs != [] && outputDirCreated && (forall l | l in RequiredSet(languageToProcess, pairs) :: read(l).Ok?) ==>
              exists p | p in pairs :: process(p) == Some(r.error)
  {
    if pairs == [] {
      return Ok([]);
    }
    var required := CollectRequiredLanguages(languageToProcess, pairs);
    if !outputDirCreated {
      return Err(IoError);
    }
    var readData: map<Language, LanguageData> := map[];
    var pending := pairs;
    var started: seq<Pair> := [];
    var errors: seq<Error> := [];
    var remaining := required;
    ghost var arrivals: seq<Language> := [];
    while remaining != {}
      invariant remaining <= required
      invariant forall l :: l in arrivals <==> l in required && l !in remaining
      invariant forall l :: l in readData <==> l in arrivals && read(l).Ok?
      invariant errors == ReaderErrors(arrivals, read)
      invariant forall p | p in pending :: !Ready(readData, p)
      invariant forall p | p in started :: Ready(readData, p)
      invariant multiset(pending) + multiset(started) == multiset(pairs)
      decreases |remaining|
    {
      var language :| language in remaining;
      remaining := remaining - {language};
      ReaderErrorsSnoc(arrivals, language, read);
      ghost var before := readData;
      match read(language) {
        case Ok(data) =>
          readData := readData[language := data];
        case Err(e) =>
          errors := errors + [e];
      }
      assert forall p | p in started :: Ready(readData, p) by {
        assert forall l | l in before :: l in readData;
      }
      arrivals := arrivals + [language];
      var nowStarted, stillPending := RescanPending(readData, pending);
      RescanKeepsInvariant(readData, pending, started, pairs);
      started := started + nowStarted;
      pending := stillPending;
    }
    var messages, failures := AwaitProcessing(started, process);
    VerdictFacts(languageToProcess, pairs, read, process, required, arrivals, readData, pending, started, errors);
    r := Verdict(pending, errors + failures, messages);
    VerdictFromState(pairs, pending, started, errors, messages, process, forall l | l in required :: read(l).Ok?);
    VerdictErrorSource(required, read, pairs, pending, started, errors, messages, process);
  }

  /** Which error the verdict returns: a reader's when some required reader failed, since reader
      errors are recorded before any processing error; otherwise a processor's. The missing-data
      error never wins, as pairs are left waiting only after a reader failed. */
  lemma VerdictErrorSource(required: set<Language>, read: Language -> Result<LanguageData>, pairs: seq<Pair>,
                           pending: seq<Pair>, started: seq<Pair>, errors: seq<Error>, messages: seq<Pair>,
                           process: Pair -> Option<Error>)
    requires errors == [] <==> forall l | l in required :: read(l).Ok?
    requires errors == [] ==> pending == []
    requires forall e | e in errors :: exists l | l in required :: read(l) == Err(e)
    requires forall p | p in started :: p in pairs
    ensures var r := Verdict(pending, errors + Failures(started, process), messages);
            && ((exists l | l in required :: read(l).Err?) ==> r.Err? && exists l | l in required :: read(l) == Err(r.error))
            && (r.Err? && (forall l | l in required :: read(l).Ok?) ==> exists p | p in pairs :: process(p) == Some(r.error))
  {
    var failures := Failures(started, process);
    VerdictOutcome(pending, errors + failures, messages);
    NoFailureIff(started, process);
    if errors != [] {
      assert (errors + failures)[0] == errors[0];
      assert errors[0] in errors;
    } else if failures != [] {
      assert (errors + failures)[0] == failures[0];
      var p :| p in started && process(p) == Some(failures[0]);
      assert p in pairs;
    }
  }

  /** The verdict in terms of the run: Ok exactly when every reader succeeded and every pair was
      processed, and then one message per pair. */
  lemma VerdictFromState(pairs: seq<Pair>, pending: seq<Pair>, started: seq<Pair>, errors: seq<Error>, messages: seq<Pair>,
                         process: Pair -> Option<Error>, allRead: bool)
    requires errors == [] <==> allRead
    requires errors == [] ==> pending == [] && multiset(started) == multiset(pairs)
    requires forall p | p in started :: p in pairs
    requires messages == Succeeded(started, process)
    ensures var r := Verdict(pending, errors + Failures(started, process), messages);
            && (r.Ok? <==> allRead && forall p | p in pairs :: process(p).None?)
            && (r.Ok? ==> multiset(r.value) == multiset(pairs))
            && (r.Err? ==> r.error in errors || r.error in Failures(started, process) || r.error.XmlProcessingFailed?)
  {
    NoFailureIff(started, process);
    var failures := Failures(started, process);
    VerdictOutcome(pending, errors + failures, messages);
    if errors == [] {
      forall p | p in pairs ensures p in started {
        assert multiset(pairs)[p] == multiset(started)[p];
      }
    }
    if errors + failures != [] {
      assert (errors + failures)[0] in errors || (errors + failures)[0] in failures;
    }
  }

  /** A rescan keeps the loop's invariant: the started pairs are ready, the waiting ones are not,
      and together they are the pairs of the set. */
  lemma RescanKeepsInvariant(readData: map<Language, LanguageData>, pending: seq<Pair>, started: seq<Pair>, pairs: seq<Pair>)
    requires forall p | p in started :: Ready(readData, p)
    requires multiset(pending) + multiset(started) == multiset(pairs)
    ensures forall p | p in StillPending(readData, pending) :: !Ready(readData, p)
    ensures forall p | p in started + ReadyPairs(readData, pending) :: Ready(readData, p)
    ensures multiset(StillPending(readData, pending)) + multiset(started + ReadyPairs(readData, pending)) == multiset(pairs)
  {
    RescanPartition(readData, pending);
  }

  /** Recording one more reader keeps the error list in arrival order. */
  lemma ReaderErrorsSnoc(arrivals: seq<Language>, l: Language, read: Language -> Result<LanguageData>)
    ensures ReaderErrors(arrivals + [l], read) == ReaderErrors(arrivals, read) + (if read(l).Err? then [read(l).error] else [])
  {
    ReaderErrorsAppend(arrivals, [l], read);
  }

  lemma {:induction false} ReaderErrorsAppend(a: seq<Language>, b: seq<Language>, read: Language -> Result<LanguageData>)
    ensures ReaderErrors(a + b, read) == ReaderErrors(a, read) + ReaderErrors(b, read)
  {
    if a != [] {
      ReaderErrorsAppend(a[1..], b, read);
      assert (a + b)[1..] == a[1..] + b;
    } else {
      assert a + b == b;
    }
  }

  /** What the state at the end of the reader loop says about the verdict. */
  lemma VerdictFacts(languageToProcess: seq<Language>, pairs: seq<Pair>, read: Language -> Result<LanguageData>,
                     process: Pair -> Option<Error>, required: set<Language>, arrivals: seq<Language>,
                     readData: map<Language, LanguageData>, pending: seq<Pair>, started: seq<Pair>, errors: seq<Error>)
    requires required == RequiredSet(languageToProcess, pairs)
    requires forall l :: l in arrivals <==> l in required
    requires forall l :: l in readData <==> l in arrivals && read(l).Ok?
    requires errors == ReaderErrors(arrivals, read)
    requires forall p | p in pending :: !Ready(readData, p)
    requires multiset(pending) + multiset(started) == multiset(pairs)
    ensures errors == [] <==> forall l | l in required :: read(l).Ok?
    ensures errors == [] ==> pending == [] && multiset(started) == multiset(pairs)
    ensures forall p | p in started :: p in pairs
    ensures forall e | e in errors :: exists l | l in required :: read(l) == Err(e)
  {
    NoReaderErrorIff(arrivals, read);
    ReaderErrorsFrom(arrivals, read);
    RequiredCoversPairs(languageToProcess, pairs);
    if errors == [] && pending != [] {
      var p := pending[0];
      assert p in multiset(pairs);
      assert Ready(readData, p);
    }
    forall p | p in started ensures p in pairs {
      assert multiset(pairs)[p] == multiset(pending)[p] + multiset(started)[p];
    }
  }

  // ---------------------------------------------------------------------------------------
  // The whole run
  // ---------------------------------------------------------------------------------------

  /** `generate_bilingual_resources_async`: read the bilingual set, then coordinate its pairs
      with the languages the generator now lists. */
  method GenerateBilingualResourcesAsync(generator: BilingualGenerator, lines: seq<string>, read: Language -> Result<LanguageData>,
                                         outputDirCreated: bool, process: Pair -> Option<Error>)
    returns (r: Result<seq<Pair>>)
    modifies generator
    ensures generator.languageToProcess == RegisterAll(old(generator.languageToProcess), Accepted(lines))
    ensures ParseLines(lines).Err? ==> r == Err(ParseLines(lines).error)
    ensures ParseLines(lines) == Ok([]) ==> r == Ok([])
    ensures ParseLines(lines).Ok? && ParseLines(lines).value != [] && !outputDirCreated ==> r == Err(IoError)
    ensures r.Ok? ==> ParseLines(lines).Ok? && multiset(r.value) == multiset(ParseLines(lines).value)
    ensures ParseLines(lines).Ok? && ParseLines(lines).value != [] && outputDirCreated ==>
              (r.Ok? <==> (forall l | l in generator.languageToProcess || l == FallbackLanguage :: read(l).Ok?)
                          && (forall p | p in ParseLines(lines).value :: process(p).None?))
    ensures ParseLines(lines).Ok? && ParseLines(lines).value != [] && outputDirCreated
            && (exists l | (l in generator.languageToProcess || l == FallbackLanguage) :: read(l).Err?) ==>
              r.Err? && exists l | (l in generator.languageToProcess || l == FallbackLanguage) :: read(l) == Err(r.error)
    ensures r.Err? && ParseLines(lines).Ok? && ParseLines(lines).value != [] && outputDirCreated
            && (forall l | l in generator.languageToProcess || l == FallbackLanguage :: read(l).Ok?) ==>
              exists p | p in ParseLines(lines).value :: process(p) == Some(r.error)
  {
    var acquired := generator.AcquireBilingualSet(lines);
    if acquired.Err? {
      return Err(acquired.error);
    }
    var pairs := acquired.value;
    SetOutcome(lines);
    RequiredAfterAcquire(old(generator.languageToProcess), lines);
    r := CoordinatePairs(generator.languageToProcess, pairs, read, outputDirCreated, process);
  }
}
