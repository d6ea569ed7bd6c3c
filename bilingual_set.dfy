/** `acquire_bilingual_set`: reading the `primary+secondary` lines of the bilingual set and
    registering every language they name in the generator's language list. Both revisions of the
    generator run the same loop; reading the file is left to the caller, which passes its lines. */
module BilingualSet {
  import opened Types
  import opened TextUtil
  import MergeRules

  /** What one line of the set contributes. */
  datatype LineOutcome = Blank | ParsedPair(pair: Pair) | Invalid

  /** One line: trimmed, skipped when blank, split on `+`, and accepted only with exactly two
      parts, each trimmed. The source trims every part before counting them; trimming keeps the
      number of parts, so only the two of an accepted line are trimmed here. */
  function ParseLine(line: string): LineOutcome {
    var trimmed := Trim(line);
    if trimmed == "" then Blank
    else
      var parts := Split(trimmed, '+');
      if |parts| != 2 then Invalid else ParsedPair(Pair(Trim(parts[0]), Trim(parts[1])))
  }

  /** The loop over the lines from the point where `acc` holds the pairs read so far: the first
      line that is neither blank nor a pair ends it with that line, untrimmed, as the error. */
  function ParseFrom(acc: seq<Pair>, rest: seq<string>): Result<seq<Pair>>
    decreases |rest|
  {
    if rest == [] then Ok(acc)
    else
      match ParseLine(rest[0])
      case Blank => ParseFrom(acc, rest[1..])
      case Invalid => Err(InvalidBilingualSet(rest[0]))
      case ParsedPair(p) => ParseFrom(acc + [p], rest[1..])
  }

  /** The result of `acquire_bilingual_set` for the lines of the set. */
  function ParseLines(lines: seq<string>): Result<seq<Pair>> {
    ParseFrom([], lines)
  }

  /** The pairs the loop reads before it stops: all of them, or those before the first invalid line. */
  function Accepted(lines: seq<string>): seq<Pair> {
    if lines == [] then []
    else
      match ParseLine(lines[0])
      case Blank => Accepted(lines[1..])
      case Invalid => []
      case ParsedPair(p) => [p] + Accepted(lines[1..])
  }

  /** The lines that are not blank, in order. */
  function NonBlank(lines: seq<string>): seq<string> {
    if lines == [] then []
    else if AllWhitespace(lines[0]) then NonBlank(lines[1..])
    else [lines[0]] + NonBlank(lines[1..])
  }

  /** `if !contains { push }`: a language not yet listed goes to the end. */
  function Register(langs: seq<Language>, l: Language): (r: seq<Language>)
    ensures l in r
  {
    if l in langs then langs else langs + [l]
  }

  function RegisterPair(langs: seq<Language>, p: Pair): seq<Language> {
    Register(Register(langs, p.primary), p.secondary)
  }

  /** The language list after the pairs `pairs` have been registered, one after the other. */
  function RegisterAll(langs: seq<Language>, pairs: seq<Pair>): seq<Language>
    decreases |pairs|
  {
    if pairs == [] then langs else RegisterAll(RegisterPair(langs, pairs[0]), pairs[1..])
  }

  // ---------------------------------------------------------------------------------------
  // One line
  // ---------------------------------------------------------------------------------------

  /** A line is skipped exactly when it is empty or white space only. */
  lemma BlankLineSkipped(line: string)
    ensures ParseLine(line) == Blank <==> AllWhitespace(line)
  {
    BlankIffAllWhitespace(line);
  }

  /** A non-blank line is refused exactly when its trimmed text does not hold exactly one `+`. */
  lemma InvalidLineIff(line: string)
    ensures ParseLine(line) == Invalid <==> !AllWhitespace(line) && Count(Trim(line), '+') != 1
  {
    BlankIffAllWhitespace(line);
  }

  /** An accepted line names the two trimmed sides of its one `+`, and neither holds a `+`. */
  lemma PairFromLine(line: string)
    requires ParseLine(line).ParsedPair?
    ensures var p := ParseLine(line).pair;
            var parts := Split(Trim(line), '+');
            && Count(Trim(line), '+') == 1
            && p.primary == Trim(parts[0]) && p.secondary == Trim(parts[1])
            && '+' !in p.primary && '+' !in p.secondary
  {
    var parts := Split(Trim(line), '+');
    TrimPartOf(parts[0], '+');
    TrimPartOf(parts[1], '+');
  }

  /** Trimming never adds a character. */
  lemma TrimPartOf(s: string, c: char)
    requires c !in s
    ensures c !in Trim(s)
  {
    TrimSlice(s);
    var i, j :| 0 <= i <= j <= |s| && Trim(s) == s[i..j];
    assert forall k | 0 <= k < j - i :: s[i..j][k] == s[i + k];
  }

  /** A name with no white space at either end. */
  predicate Trimmed(name: string) {
    name == [] || (!IsWhitespace(name[0]) && !IsWhitespace(name[|name| - 1]))
  }

  /** A string with no white space at either end is its own trim. */
  lemma TrimmedIsFixed(s: string)
    requires Trimmed(s)
    ensures Trim(s) == s
  {
    assert TrimStart(s) == s;
  }

  /** Writing a pair as `primary+secondary` and reading the line back gives the pair, for names
      without `+` and without white space at either end. */
  lemma LineRoundTrip(p: Pair)
    requires '+' !in p.primary && '+' !in p.secondary
    requires Trimmed(p.primary) && Trimmed(p.secondary)
    ensures ParseLine(p.primary + "+" + p.secondary) == ParsedPair(p)
  {
    var line := p.primary + "+" + p.secondary;
    JoinedTrimmed(p.primary, p.secondary);
    TrimmedIsFixed(line);
    SplitCons(p.primary, p.secondary, [p.secondary], '+') by {
      SplitNoSeparator(p.secondary, '+');
    }
    assert line == p.primary + ['+'] + p.secondary;
    TrimmedIsFixed(p.primary);
    TrimmedIsFixed(p.secondary);
  }

  /** Two trimmed names joined by `+` form a trimmed line. */
  lemma JoinedTrimmed(a: string, b: string)
    requires Trimmed(a) && Trimmed(b)
    ensures Trimmed(a + "+" + b)
  {
    var line := a + "+" + b;
    assert !IsWhitespace('+');
    assert line[0] == if a == [] then '+' else a[0];
    assert line[|line| - 1] == if b == [] then '+' else b[|b| - 1];
  }

  // ---------------------------------------------------------------------------------------
  // The whole set
  // ---------------------------------------------------------------------------------------

  /** The index of the first line that is neither blank nor a pair, or the number of lines. */
  function FirstInvalid(lines: seq<string>): (k: nat)
    ensures k <= |lines|
    ensures k < |lines| ==> ParseLine(lines[k]) == Invalid
    ensures forall j | 0 <= j < k :: ParseLine(lines[j]) != Invalid
  {
    if lines == [] || ParseLine(lines[0]) == Invalid then 0 else 1 + FirstInvalid(lines[1..])
  }

  /** The loop stops at the first invalid line and reports that line as it was read; otherwise it
      returns the pairs it read after the ones it already had. */
  lemma {:induction false} ParseFromOutcome(acc: seq<Pair>, rest: seq<string>)
    ensures var k := FirstInvalid(rest);
            ParseFrom(acc, rest) == if k < |rest| then Err(InvalidBilingualSet(rest[k])) else Ok(acc + Accepted(rest))
    decreases |rest|
  {
    if rest != [] {
      var k := FirstInvalid(rest);
      match ParseLine(rest[0])
      case Blank =>
        ParseFromOutcome(acc, rest[1..]);
        assert k == 1 + FirstInvalid(rest[1..]);
        assert ParseFrom(acc, rest) == ParseFrom(acc, rest[1..]);
        assert Accepted(rest) == Accepted(rest[1..]);
        if k < |rest| {
          assert rest[k] == rest[1..][k - 1];
        }
      case Invalid =>
        assert k == 0;
      case ParsedPair(p) =>
        ParseFromOutcome(acc + [p], rest[1..]);
        assert ParseFrom(acc, rest) == ParseFrom(acc + [p], rest[1..]);
        assert Accepted(rest) == [p] + Accepted(rest[1..]);
        assert k == 1 + FirstInvalid(rest[1..]);
        assert acc + [p] + Accepted(rest[1..]) == acc + Accepted(rest);
        if k < |rest| {
          assert rest[k] == rest[1..][k - 1];
        }
    } else {
      assert acc + [] == acc;
    }
  }

  /** The pairs read are those of the lines before the first invalid one. */
  lemma {:induction false} AcceptedStopsAtError(lines: seq<string>)
    ensures Accepted(lines) == Accepted(lines[..FirstInvalid(lines)])
  {
    if lines != [] && ParseLine(lines[0]) != Invalid {
      AcceptedStopsAtError(lines[1..]);
      var k := FirstInvalid(lines);
      assert lines[..k][1..] == lines[1..][..k - 1];
      assert lines[..k][0] == lines[0];
    }
  }

  /** On success the pairs are those of the non-blank lines, one per line and in file order. */
  lemma {:induction false} AcceptedFollowsLines(lines: seq<string>)
    requires forall k | 0 <= k < |lines| :: ParseLine(lines[k]) != Invalid
    ensures var pairs := Accepted(lines);
            && |pairs| == |NonBlank(lines)|
            && forall i | 0 <= i < |pairs| :: ParseLine(NonBlank(lines)[i]) == ParsedPair(pairs[i])
  {
    if lines != [] {
      var rest := lines[1..];
      forall k | 0 <= k < |rest| ensures ParseLine(rest[k]) != Invalid {
        assert rest[k] == lines[k + 1];
      }
      AcceptedFollowsLines(rest);
      var first := ParseLine(lines[0]);
      assert first != Invalid;
      BlankLineSkipped(lines[0]);
      if first == Blank {
        assert NonBlank(lines) == NonBlank(rest);
        assert Accepted(lines) == Accepted(rest);
      } else {
        var pairs := Accepted(lines);
        assert NonBlank(lines) == [lines[0]] + NonBlank(rest);
        assert pairs == [first.pair] + Accepted(rest);
        forall i | 0 < i < |pairs| ensures ParseLine(NonBlank(lines)[i]) == ParsedPair(pairs[i]) {
          assert NonBlank(lines)[i] == NonBlank(rest)[i - 1];
          assert pairs[i] == Accepted(rest)[i - 1];
        }
      }
    }
  }

  /** What `acquire_bilingual_set` returns: the first line that is neither blank nor a pair, as
      it was read, or else the pairs of the non-blank lines, one per line and in file order. */
  lemma SetOutcome(lines: seq<string>)
    ensures var k := FirstInvalid(lines);
            && ParseLines(lines) == (if k < |lines| then Err(InvalidBilingualSet(lines[k])) else Ok(Accepted(lines)))
            && (k == |lines| ==>
                  && |Accepted(lines)| == |NonBlank(lines)|
                  && forall i | 0 <= i < |Accepted(lines)| :: ParseLine(NonBlank(lines)[i]) == ParsedPair(Accepted(lines)[i]))
  {
    ParseFromOutcome([], lines);
    assert [] + Accepted(lines) == Accepted(lines);
    if FirstInvalid(lines) == |lines| {
      AcceptedFollowsLines(lines);
    }
  }

  // ---------------------------------------------------------------------------------------
  // The language list
  // ---------------------------------------------------------------------------------------

  /** Registering keeps the listed languages where they were, adds only the pair languages, adds each
      at most once, and leaves every pair language listed. */
  lemma {:induction false} RegisterAllProperties(langs: seq<Language>, pairs: seq<Pair>)
    ensures var r := RegisterAll(langs, pairs);
            && |langs| <= |r| && r[..|langs|] == langs
            && (NoDup(langs) ==> NoDup(r))
            && (forall p | p in pairs :: p.primary in r && p.secondary in r)
            && (forall l | l in r :: l in langs || exists p | p in pairs :: l == p.primary || l == p.secondary)
    decreases |pairs|
  {
    if pairs != [] {
      var p := pairs[0];
      var next := RegisterPair(langs, p);
      RegisterAllProperties(next, pairs[1..]);
      var r := RegisterAll(next, pairs[1..]);
      assert r[..|next|] == next;
      assert r[..|langs|] == next[..|langs|];
      assert next[..|langs|] == langs;
      assert p.primary in next && p.secondary in next;
      assert p.primary in r && p.secondary in r by {
        assert forall x | x in next :: x in r[..|next|];
      }
      forall q | q in pairs ensures q.primary in r && q.secondary in r {
        if q != p {
          assert q in pairs[1..];
        }
      }
      forall l | l in r ensures l in langs || exists q | q in pairs :: l == q.primary || l == q.secondary {
        if l !in next {
          var q :| q in pairs[1..] && (l == q.primary || l == q.secondary);
          assert q in pairs;
        } else if l !in langs {
          assert l == p.primary || l == p.secondary;
        }
      }
    }
  }

  /** The pair registration keeps a duplicate-free list duplicate-free. */
  lemma RegisterPairNoDup(langs: seq<Language>, p: Pair)
    requires NoDup(langs)
    ensures NoDup(RegisterPair(langs, p))
  {
  }

  // ---------------------------------------------------------------------------------------
  // The generator's state
  // ---------------------------------------------------------------------------------------

  /** The two fields of `BilingualGenerator` the bilingual set touches. */
  class BilingualGenerator {
    var filesToProcess: seq<XmlFile>
    var languageToProcess: seq<Language>

    /** `init`: the six text files and the two default languages. */
    constructor ()
      ensures filesToProcess == MergeRules.FilesToProcess
      ensures languageToProcess == ["Chineses", "English"]
    {
      filesToProcess := MergeRules.FilesToProcess;
      languageToProcess := ["Chineses", "English"];
    }

    /** `acquire_bilingual_set` over the lines of the set. The languages of the pairs read before
        an error stay registered, as they do in the source. */
    method AcquireBilingualSet(lines: seq<string>) returns (r: Result<seq<Pair>>)
      modifies this
      ensures r == ParseLines(lines)
      ensures languageToProcess == RegisterAll(old(languageToProcess), Accepted(lines))
      ensures filesToProcess == old(filesToProcess)
    {
      var bilingualSet: seq<Pair> := [];
      var i := 0;
      while i < |lines|
        invariant 0 <= i <= |lines|
        invariant ParseFrom(bilingualSet, lines[i..]) == ParseLines(lines)
        invariant RegisterAll(languageToProcess, Accepted(lines[i..])) == RegisterAll(old(languageToProcess), Accepted(lines))
        invariant filesToProcess == old(filesToProcess)
      {
        var line := lines[i];
        assert lines[i..][1..] == lines[i + 1..];
        var trimmed := Trim(line);
        if trimmed == "" {
          i := i + 1;
          continue;
        }
        var parts := Split(trimmed, '+');
        if |parts| != 2 {
          assert Accepted(lines[i..]) == [];
          return Err(InvalidBilingualSet(line));
        }
        var primaryLanguage := Trim(parts[0]);
        var secondaryLanguage := Trim(parts[1]);
        var p := Pair(primaryLanguage, secondaryLanguage);
        assert Accepted(lines[i..]) == [p] + Accepted(lines[i + 1..]);
        ghost var before := languageToProcess;
        if primaryLanguage !in languageToProcess {
          languageToProcess := languageToProcess + [primaryLanguage];
        }
        if secondaryLanguage !in languageToProcess {
          languageToProcess := languageToProcess + [secondaryLanguage];
        }
        assert languageToProcess == RegisterPair(before, p);
        bilingualSet := bilingualSet + [p];
        i := i + 1;
      }
      r := Ok(bilingualSet);
    }
  }

  /** The generator's state after reading a set: the defaults stay first, no language is listed
      twice, every pair read is covered, and nothing else is added. */
  lemma AcquireFromDefaults(lines: seq<string>)
    ensures var r := RegisterAll(["Chineses", "English"], Accepted(lines));
            && |r| >= 2 && r[..2] == ["Chineses", "English"]
            && NoDup(r)
            && (forall p | p in Accepted(lines) :: p.primary in r && p.secondary in r)
            && (forall l | l in r ::
                  l == "Chineses" || l == "English" || exists p | p in Accepted(lines) :: l == p.primary || l == p.secondary)
  {
    RegisterAllProperties(["Chineses", "English"], Accepted(lines));
  }
}
