/** The converter's small value types (its `Language`, `XmlFile`, `EntryId`, `LastTextValue` wrappers
    and the error enum) together with the insertion-ordered table the row parser builds. */
module Types {

  type Language = string
  type XmlFile = string
  type EntryId = string
  type TextValue = string

  /** A line `primary+secondary` of the bilingual set. */
  datatype Pair = Pair(primary: Language, secondary: Language)

  /** What went wrong while handling XML; the source also formats a message, which is not modelled. */
  datatype XmlFailure =
    | InvalidText         // an escape sequence or a byte sequence the decoder refused
    | MalformedXml        // the XML reader reported a syntax error
    | PairsMissingData(pairs: seq<Pair>)  // pairs still waiting when every reader has reported
    | OutputFailed        // an output directory or file could not be written

  datatype Error =
    | InvalidBilingualSet(line: string)
    | PakExtractionFailed
    | XmlProcessingFailed(failure: XmlFailure)
    | PakCreationFailed
    | IoError             // the shared output directory could not be created
    | TaskJoinError(task: Language)
    | DatabaseDataMissing(file: XmlFile, language: Language)

  datatype Result<T> = Ok(value: T) | Err(error: Error)

  datatype Option<T> = None | Some(value: T)

  predicate NoDup<T(==)>(s: seq<T>) {
    forall i, j :: 0 <= i < j < |s| ==> s[i] != s[j]
  }

  /** An `IndexMap<EntryId, LastTextValue>`: a map that remembers the order in which keys were
      first inserted. */
  datatype Table = Table(order: seq<EntryId>, text: map<EntryId, TextValue>) {

    predicate Valid() {
      NoDup(order) && (forall k | k in text :: k in order) && (forall k | k in order :: k in text)
    }

    /** `IndexMap::insert`: a new key goes to the end, an existing key keeps its place and gets the new value. */
    function Insert(k: EntryId, v: TextValue): (r: Table)
      requires Valid()
      ensures r.Valid()
      ensures r.text == text[k := v]
      ensures k in text ==> r.order == order
      ensures k !in text ==> r.order == order + [k]
    {
      if k in text then Table(order, text[k := v]) else Table(order + [k], text[k := v])
    }

    /** `get(k)` followed by `unwrap_or(default)`. */
    function GetOr(k: EntryId, default: TextValue): (r: TextValue)
      ensures k in text ==> r == text[k]
      ensures k !in text ==> r == default
    {
      if k in text then text[k] else default
    }
  }

  const EmptyTable: Table := Table([], map[])

  lemma EmptyTableValid()
    ensures EmptyTable.Valid()
  {
  }

  /** Inserting a pair the table already holds changes nothing. */
  lemma InsertPresent(t: Table, k: EntryId, v: TextValue)
    requires t.Valid() && k in t.text && t.text[k] == v
    ensures t.Insert(k, v) == t
  {
    assert t.text[k := v] == t.text;
  }

  /** Reading after an insert: the inserted key gives the new text, and every other key gives what
      it gave before. */
  lemma GetOrAfterInsert(t: Table, k: EntryId, v: TextValue, k': EntryId, d: TextValue)
    requires t.Valid()
    ensures t.Insert(k, v).GetOr(k, d) == v
    ensures k' != k ==> t.Insert(k, v).GetOr(k', d) == t.GetOr(k', d)
  {
  }

  /** A lookup of an absent key gives the default, whatever the table holds; so an entry whose
      text is the default cannot be told apart from a missing one. */
  lemma GetOrDefaultIff(t: Table, k: EntryId, d: TextValue)
    ensures t.GetOr(k, d) == d <==> k !in t.text || t.text[k] == d
  {
  }
}
