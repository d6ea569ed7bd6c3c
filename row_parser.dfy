/** The row-table extraction loops of the three revisions, run over an abstract stream of XML
    reader events. A text table is a sequence of `<Row>` elements whose `<Cell>` texts become
    cells; cell 0 is the entry id and cell 2 the text kept for it. */
module RowParser {
  import opened Types

  /** The first cell of the header row. */
  const HeaderMarker: string := "Entry id"

  /** What the XML reader yields, reduced to what the loops look at. `Other` stands for every event
      the loops ignore (other elements, comments, CDATA, declarations); `Malformed` for a reader error. */
  datatype Event = StartRow | EndRow | Text(raw: string) | Other | Eof | Malformed

  /** What a closed row with too few cells becomes. */
  datatype RowPolicy =
    | DropShortRows    // rows with fewer than 3 cells are skipped
    | PadTwoCellRows   // a 2-cell row is kept with an empty text; shorter rows are skipped

  /** One revision's loop: its short-row policy, and whether it empties the cells when a row closes. */
  datatype Variant = Variant(policy: RowPolicy, clearAtRowEnd: bool)

  /** `read_single_language_xmls_sync` in the async revision. */
  const AsyncReader: Variant := Variant(DropShortRows, true)
  /** `read_xml_from_paks` of the database revision. */
  const DbLoadReader: Variant := Variant(PadTwoCellRows, false)
  /** `force_update_db_for` of the database revision. */
  const DbForceUpdateReader: Variant := Variant(DropShortRows, false)
  /** `read_xml_from_paks` of the first revision. */
  const LegacyReader: Variant := Variant(DropShortRows, false)

  /** The decoder of the revisions that keep raw text: the document was read into a `String`, so
      `from_utf8` and `from_utf8_lossy` of a text event return it unchanged. */
  function RawText(raw: string): Option<string> {
    Some(raw)
  }

  /** The row is turned into a table entry, keyed by its first cell. */
  predicate Accepts(policy: RowPolicy, cells: seq<string>) {
    && |cells| > 0
    && cells[0] != HeaderMarker
    && (|cells| >= 3 || (policy == PadTwoCellRows && |cells| == 2))
  }

  /** The text stored for an accepted row: cell 2, or the empty text of a padded 2-cell row. */
  function EntryText(policy: RowPolicy, cells: seq<string>): TextValue
    requires Accepts(policy, cells)
  {
    if |cells| >= 3 then cells[2] else ""
  }

  predicate AcceptsKey(policy: RowPolicy, cells: seq<string>, k: EntryId) {
    Accepts(policy, cells) && cells[0] == k
  }

  /** What closing a row does to the table. */
  function AddRow(policy: RowPolicy, t: Table, cells: seq<string>): (r: Table)
    requires t.Valid()
    ensures r.Valid()
  {
    if Accepts(policy, cells) then t.Insert(cells[0], EntryText(policy, cells)) else t
  }

  /** The loop's local variables: `inside_row`, `current_cells` and the table being built. */
  datatype ParserState = ParserState(insideRow: bool, cells: seq<string>, table: Table)

  const Initial: ParserState := ParserState(false, [], EmptyTable)

  /** Running the loop over `events` from state `st`. The stream is read up to its first `Eof`; a
      stream that stops without one ends there too, as the reader yields `Eof` at the end of input. */
  function Run(v: Variant, decode: string -> Option<string>, st: ParserState, events: seq<Event>): (r: Result<Table>)
    requires st.table.Valid()
    ensures r.Ok? ==> r.value.Valid()
    decreases |events|
  {
    if events == [] then Ok(st.table)
    else
      match events[0]
      case StartRow => Run(v, decode, ParserState(true, [], st.table), events[1..])
      case EndRow =>
        var cells := if v.clearAtRowEnd then [] else st.cells;
        Run(v, decode, ParserState(false, cells, AddRow(v.policy, st.table, st.cells)), events[1..])
      case Text(raw) =>
        if !st.insideRow then Run(v, decode, st, events[1..])
        else (
          match decode(raw)
          case None => Err(XmlProcessingFailed(InvalidText))
          case Some(c) => Run(v, decode, st.(cells := st.cells + [c]), events[1..]))
      case Other => Run(v, decode, st, events[1..])
      case Eof => Ok(st.table)
      case Malformed => Err(XmlProcessingFailed(MalformedXml))
  }

  /** The table that one revision's loop extracts from a document. */
  function ParseTable(v: Variant, decode: string -> Option<string>, events: seq<Event>): Result<Table> {
    EmptyTableValid();
    Run(v, decode, Initial, events)
  }

  /** The parse loop, as the source writes it: it updates `inside_row`, `current_cells` and the table
      event by event. */
  method ReadTable(v: Variant, decode: string -> Option<string>, events: seq<Event>) returns (r: Result<Table>)
    ensures r == ParseTable(v, decode, events)
  {
    EmptyTableValid();
    var insideRow := false;
    var cells: seq<string> := [];
    var table := EmptyTable;
    var i := 0;
    while i < |events|
      invariant 0 <= i <= |events|
      invariant table.Valid()
      invariant ParseTable(v, decode, events) == Run(v, decode, ParserState(insideRow, cells, table), events[i..])
    {
      assert events[i..][0] == events[i] && events[i..][1..] == events[i + 1..];
      match events[i] {
        case StartRow =>
          insideRow := true;
          cells := [];
        case EndRow =>
          insideRow := false;
          table := AddRow(v.policy, table, cells);
          if v.clearAtRowEnd {
            cells := [];
          }
        case Text(raw) =>
          if insideRow {
            match decode(raw)
            case None =>
              return Err(XmlProcessingFailed(InvalidText));
            case Some(c) =>
              cells := cells + [c];
          }
        case Other =>
        case Eof =>
          return Ok(table);
        case Malformed =>
          return Err(XmlProcessingFailed(MalformedXml));
      }
      i := i + 1;
    }
    return Ok(table);
  }

  // ---------------------------------------------------------------------------------------------
  // The rows of a document, and the table they build

  /** The cells of each row the stream closes, in order. A `Text` event adds a cell only inside a
      row; a row starts with no cells; an `EndRow` outside a row closes a row with no cells. */
  function RowsFrom(decode: string -> Option<string>, inside: bool, cells: seq<string>, events: seq<Event>): Result<seq<seq<string>>>
    decreases |events|
  {
    if events == [] then Ok([])
    else
      match events[0]
      case StartRow => RowsFrom(decode, true, [], events[1..])
      case EndRow => (
        match RowsFrom(decode, false, [], events[1..])
        case Ok(rows) => Ok([cells] + rows)
        case Err(e) => Err(e))
      case Text(raw) =>
        if !inside then RowsFrom(decode, inside, cells, events[1..])
        else (
          match decode(raw)
          case None => Err(XmlProcessingFailed(InvalidText))
          case Some(c) => RowsFrom(decode, inside, cells + [c], events[1..]))
      case Other => RowsFrom(decode, inside, cells, events[1..])
      case Eof => Ok([])
      case Malformed => Err(XmlProcessingFailed(MalformedXml))
  }

  function Rows(decode: string -> Option<string>, events: seq<Event>): Result<seq<seq<string>>> {
    RowsFrom(decode, false, [], events)
  }

  /** Inserting the accepted rows one after the other. */
  function BuildTable(policy: RowPolicy, t: Table, rows: seq<seq<string>>): (r: Table)
    requires t.Valid()
    ensures r.Valid()
    decreases |rows|
  {
    if rows == [] then t else BuildTable(policy, AddRow(policy, t, rows[0]), rows[1..])
  }

  function BuildFrom(policy: RowPolicy, rows: Result<seq<seq<string>>>): Result<Table> {
    EmptyTableValid();
    match rows
    case Ok(rs) => Ok(BuildTable(policy, EmptyTable, rs))
    case Err(e) => Err(e)
  }

  /** A row already reflected in the table: closing it again changes nothing. */
  predicate Absorbed(policy: RowPolicy, t: Table, cells: seq<string>) {
    Accepts(policy, cells) ==> cells[0] in t.text && t.text[cells[0]] == EntryText(policy, cells)
  }

  lemma {:induction false} RunAsRowsFrom(v: Variant, decode: string -> Option<string>, st: ParserState, open: seq<string>, events: seq<Event>)
    requires st.table.Valid()
    requires st.insideRow ==> st.cells == open
    requires !st.insideRow ==> open == [] && (v.clearAtRowEnd ==> st.cells == []) && Absorbed(v.policy, st.table, st.cells)
    ensures Run(v, decode, st, events) == match RowsFrom(decode, st.insideRow, open, events)
                                         case Ok(rows) => Ok(BuildTable(v.policy, st.table, rows))
                                         case Err(e) => Err(e)
    decreases |events|
  {
    if events != [] {
      var rest := events[1..];
      match events[0]
      case StartRow =>
        RunAsRowsFrom(v, decode, ParserState(true, [], st.table), [], rest);
      case EndRow =>
        var t' := AddRow(v.policy, st.table, st.cells);
        var cells := if v.clearAtRowEnd then [] else st.cells;
        if !st.insideRow {
          if Accepts(v.policy, st.cells) {
            InsertPresent(st.table, st.cells[0], EntryText(v.policy, st.cells));
          }
          assert t' == st.table == AddRow(v.policy, st.table, open);
        }
        assert Absorbed(v.policy, t', cells);
        RunAsRowsFrom(v, decode, ParserState(false, cells, t'), [], rest);
      case Text(raw) =>
        if !st.insideRow {
          RunAsRowsFrom(v, decode, st, open, rest);
        } else if decode(raw).Some? {
          RunAsRowsFrom(v, decode, st.(cells := st.cells + [decode(raw).value]), open + [decode(raw).value], rest);
        }
      case Other =>
        RunAsRowsFrom(v, decode, st, open, rest);
      case Eof =>
      case Malformed =>
    }
  }

  /** Every revision's loop is "split the document into rows, then insert the accepted rows in
      order": emptying the cells when a row closes, which only the async revision does, makes no
      difference, because a row closed twice is already in the table. */
  lemma ParseIsBuildOfRows(v: Variant, decode: string -> Option<string>, events: seq<Event>)
    ensures ParseTable(v, decode, events) == BuildFrom(v.policy, Rows(decode, events))
  {
    EmptyTableValid();
    RunAsRowsFrom(v, decode, Initial, [], events);
  }

  /** The async loop and the first revision's loop extract the same table from a document when
      both read it with the same decoder. */
  lemma AsyncAgreesWithLegacy(decode: string -> Option<string>, events: seq<Event>)
    ensures ParseTable(AsyncReader, decode, events) == ParseTable(LegacyReader, decode, events)
  {
    ParseIsBuildOfRows(AsyncReader, decode, events);
    ParseIsBuildOfRows(LegacyReader, decode, events);
  }

  /** The decoders differ, though: the async loop unescapes each text, the first revision keeps it
      raw. So a cell text the unescaper changes (say `a&amp;b`, which becomes `a&b`) is stored
      decoded by the one and verbatim by the other. */
  lemma RevisionsDifferOnEscapedText(unescape: string -> Option<string>, id: string, raw: string, decoded: string)
    requires id != HeaderMarker
    requires unescape(id) == Some(id) && unescape(raw) == Some(decoded) && decoded != raw
    ensures var doc := [StartRow, Text(id), Text(id), Text(raw), EndRow];
            && ParseTable(AsyncReader, unescape, doc) == Ok(Table([id], map[id := decoded]))
            && ParseTable(LegacyReader, RawText, doc) == Ok(Table([id], map[id := raw]))
  {
    var doc := [StartRow, Text(id), Text(id), Text(raw), EndRow];
    ParseIsBuildOfRows(AsyncReader, unescape, doc);
    ParseIsBuildOfRows(LegacyReader, RawText, doc);
    OneRowDocument(unescape, id, id, raw, id, id, decoded);
    OneRowDocument(RawText, id, id, raw, id, id, raw);
    EmptyTableValid();
    OneRowTable(DropShortRows, [id, id, decoded]);
    OneRowTable(DropShortRows, [id, id, raw]);
  }

  /** Building from one accepted three-cell row gives the table of that one entry. */
  lemma OneRowTable(policy: RowPolicy, cells: seq<string>)
    requires |cells| == 3 && cells[0] != HeaderMarker
    ensures EmptyTable.Valid()
    ensures BuildTable(policy, EmptyTable, [cells]) == Table([cells[0]], map[cells[0] := cells[2]])
  {
    EmptyTableValid();
    assert [cells][1..] == [];
    assert AddRow(policy, EmptyTable, cells) == Table([] + [cells[0]], map[][cells[0] := cells[2]]);
    assert [] + [cells[0]] == [cells[0]];
  }

  /** A document of one three-cell row closes exactly that row. */
  lemma OneRowDocument(decode: string -> Option<string>, a: string, b: string, c: string, da: string, db: string, dc: string)
    requires decode(a) == Some(da) && decode(b) == Some(db) && decode(c) == Some(dc)
    ensures Rows(decode, [StartRow, Text(a), Text(b), Text(c), EndRow]) == Ok([[da, db, dc]])
  {
    var doc := [StartRow, Text(a), Text(b), Text(c), EndRow];
    assert doc[1..] == [Text(a), Text(b), Text(c), EndRow];
    assert doc[1..][1..] == [Text(b), Text(c), EndRow];
    assert doc[1..][1..][1..] == [Text(c), EndRow];
    assert doc[1..][1..][1..][1..] == [EndRow];
    assert [EndRow][1..] == [];
    assert RowsFrom(decode, false, [], []) == Ok([]);
    assert [[da, db, dc]] + [] == [[da, db, dc]];
    assert RowsFrom(decode, true, [da, db, dc], [EndRow]) == Ok([[da, db, dc]]);
    assert [] + [da] == [da] && [da] + [db] == [da, db] && [da, db] + [dc] == [da, db, dc];
    assert RowsFrom(decode, true, [da, db], [Text(c), EndRow]) == Ok([[da, db, dc]]);
    assert RowsFrom(decode, true, [da], [Text(b), Text(c), EndRow]) == Ok([[da, db, dc]]);
    assert RowsFrom(decode, true, [], [Text(a), Text(b), Text(c), EndRow]) == Ok([[da, db, dc]]);
  }

  // ---------------------------------------------------------------------------------------------
  // What the built table holds

  lemma {:induction false} BuildKeys(policy: RowPolicy, t: Table, rows: seq<seq<string>>, k: EntryId)
    requires t.Valid()
    ensures k in BuildTable(policy, t, rows).text <==>
              (k in t.text || exists j :: 0 <= j < |rows| && AcceptsKey(policy, rows[j], k))
    decreases |rows|
  {
    if rows != [] {
      BuildKeys(policy, AddRow(policy, t, rows[0]), rows[1..], k);
      if exists j :: 0 <= j < |rows| - 1 && AcceptsKey(policy, rows[1..][j], k) {
        var j :| 0 <= j < |rows| - 1 && AcceptsKey(policy, rows[1..][j], k);
        assert AcceptsKey(policy, rows[j + 1], k);
      }
      if exists j :: 0 <= j < |rows| && AcceptsKey(policy, rows[j], k) {
        var j :| 0 <= j < |rows| && AcceptsKey(policy, rows[j], k);
        if j > 0 {
          assert AcceptsKey(policy, rows[1..][j - 1], k);
        }
      }
    }
  }

  lemma {:induction false} BuildUntouched(policy: RowPolicy, t: Table, rows: seq<seq<string>>, k: EntryId)
    requires t.Valid() && k in t.text
    requires forall j :: 0 <= j < |rows| ==> !AcceptsKey(policy, rows[j], k)
    ensures k in BuildTable(policy, t, rows).text && BuildTable(policy, t, rows).text[k] == t.text[k]
    decreases |rows|
  {
    if rows != [] {
      assert !AcceptsKey(policy, rows[0], k);
      forall j | 0 <= j < |rows| - 1 ensures !AcceptsKey(policy, rows[1..][j], k) {
        assert rows[1..][j] == rows[j + 1];
      }
      BuildUntouched(policy, AddRow(policy, t, rows[0]), rows[1..], k);
    }
  }

  /** The text kept for a key is that of the last accepted row with that key. */
  lemma {:induction false} BuildLast(policy: RowPolicy, t: Table, rows: seq<seq<string>>, j: nat, k: EntryId)
    requires t.Valid()
    requires j < |rows| && AcceptsKey(policy, rows[j], k)
    requires forall j' :: j < j' < |rows| ==> !AcceptsKey(policy, rows[j'], k)
    ensures k in BuildTable(policy, t, rows).text
    ensures BuildTable(policy, t, rows).text[k] == EntryText(policy, rows[j])
    decreases |rows|
  {
    var t' := AddRow(policy, t, rows[0]);
    forall j' | j <= j' < |rows| - 1 && j' >= 0 ensures rows[1..][j'] == rows[j' + 1] { }
    if j == 0 {
      BuildUntouched(policy, t', rows[1..], k);
    } else {
      BuildLast(policy, t', rows[1..], j - 1, k);
    }
  }

  /** Keys in order of first insertion, starting after `acc`: what `IndexMap` keeps as its order. */
  function FirstSeen(acc: seq<EntryId>, keys: seq<EntryId>): seq<EntryId>
    decreases |keys|
  {
    if keys == [] then acc
    else FirstSeen(if keys[0] in acc then acc else acc + [keys[0]], keys[1..])
  }

  /** The keys of the accepted rows, in row order, repeats included. */
  function AcceptedKeys(policy: RowPolicy, rows: seq<seq<string>>): (ks: seq<EntryId>)
    ensures |ks| <= |rows|
  {
    if rows == [] then []
    else (if Accepts(policy, rows[0]) then [rows[0][0]] else []) + AcceptedKeys(policy, rows[1..])
  }

  /** The table's order is the order in which keys were first accepted. */
  lemma {:induction false} BuildOrder(policy: RowPolicy, t: Table, rows: seq<seq<string>>)
    requires t.Valid()
    ensures BuildTable(policy, t, rows).order == FirstSeen(t.order, AcceptedKeys(policy, rows))
    decreases |rows|
  {
    if rows != [] {
      var t' := AddRow(policy, t, rows[0]);
      BuildOrder(policy, t', rows[1..]);
      if Accepts(policy, rows[0]) {
        var ks := AcceptedKeys(policy, rows);
        assert ks == [rows[0][0]] + AcceptedKeys(policy, rows[1..]);
        assert ks[1..] == AcceptedKeys(policy, rows[1..]);
        assert rows[0][0] in t.order <==> rows[0][0] in t.text;
      } else {
        assert AcceptedKeys(policy, rows) == AcceptedKeys(policy, rows[1..]);
      }
    }
  }

  /** What the async loop (and the rows-of-3 loops of the other revisions) puts in a table: the
      header row never becomes an entry; every key is cell 0 of a row with at least 3 cells, and
      its text is cell 2 of the last such row with that key; the order is that of first appearance. */
  lemma ParsedTableFromRows(v: Variant, decode: string -> Option<string>, events: seq<Event>, rows: seq<seq<string>>, t: Table)
    requires v.policy == DropShortRows
    requires Rows(decode, events) == Ok(rows)
    requires ParseTable(v, decode, events) == Ok(t)
    ensures HeaderMarker !in t.text
    ensures forall k :: k in t.text <==> exists j :: 0 <= j < |rows| && |rows[j]| >= 3 && rows[j][0] == k && k != HeaderMarker
    ensures forall j, k ::
              (0 <= j < |rows| && |rows[j]| >= 3 && rows[j][0] == k && k != HeaderMarker &&
               (forall j' :: j < j' < |rows| ==> !(|rows[j']| >= 3 && rows[j'][0] == k)))
              ==> k in t.text && t.text[k] == rows[j][2]
    ensures t.order == FirstSeen([], AcceptedKeys(v.policy, rows))
  {
    EmptyTableValid();
    ParseIsBuildOfRows(v, decode, events);
    assert t == BuildTable(v.policy, EmptyTable, rows);
    forall k ensures k in t.text <==> exists j :: 0 <= j < |rows| && AcceptsKey(v.policy, rows[j], k) {
      BuildKeys(v.policy, EmptyTable, rows, k);
    }
    forall j, k | 0 <= j < |rows| && |rows[j]| >= 3 && rows[j][0] == k && k != HeaderMarker &&
                  (forall j' :: j < j' < |rows| ==> !(|rows[j']| >= 3 && rows[j'][0] == k))
      ensures k in t.text && t.text[k] == rows[j][2]
    {
      BuildLast(v.policy, EmptyTable, rows, j, k);
    }
    BuildOrder(v.policy, EmptyTable, rows);
  }

  /** In the database load, a 2-cell row other than the header is kept with an empty text, a row of
      at least 3 cells with cell 2, and a 1-cell row is skipped. */
  lemma DbLoadRowPolicy(cells: seq<string>)
    requires |cells| > 0 && cells[0] != HeaderMarker
    ensures |cells| == 2 ==> Accepts(DbLoadReader.policy, cells) && EntryText(DbLoadReader.policy, cells) == ""
    ensures |cells| >= 3 ==> Accepts(DbLoadReader.policy, cells) && EntryText(DbLoadReader.policy, cells) == cells[2]
    ensures |cells| == 1 ==> !Accepts(DbLoadReader.policy, cells)
  {
  }

  lemma {:induction false} PoliciesAgreeWithoutTwoCellRows(t: Table, rows: seq<seq<string>>)
    requires t.Valid()
    requires forall j :: 0 <= j < |rows| ==> |rows[j]| != 2
    ensures BuildTable(PadTwoCellRows, t, rows) == BuildTable(DropShortRows, t, rows)
    decreases |rows|
  {
    if rows != [] {
      assert AddRow(PadTwoCellRows, t, rows[0]) == AddRow(DropShortRows, t, rows[0]);
      forall j | 0 <= j < |rows| - 1 ensures |rows[1..][j]| != 2 {
        assert rows[1..][j] == rows[j + 1];
      }
      PoliciesAgreeWithoutTwoCellRows(AddRow(DropShortRows, t, rows[0]), rows[1..]);
    }
  }

  /** The database load and the other loops differ only on 2-cell rows. */
  lemma DbLoadAgreesWithoutTwoCellRows(decode: string -> Option<string>, events: seq<Event>, rows: seq<seq<string>>)
    requires Rows(decode, events) == Ok(rows)
    requires forall j :: 0 <= j < |rows| ==> |rows[j]| != 2
    ensures ParseTable(DbLoadReader, decode, events) == ParseTable(DbForceUpdateReader, decode, events)
  {
    EmptyTableValid();
    ParseIsBuildOfRows(DbLoadReader, decode, events);
    ParseIsBuildOfRows(DbForceUpdateReader, decode, events);
    PoliciesAgreeWithoutTwoCellRows(EmptyTable, rows);
  }

  /** On a 2-cell row they do differ: the database load keeps it, the async loop drops it. */
  lemma TwoCellRowKeptOnlyByDbLoad()
    ensures ParseTable(DbLoadReader, RawText, [StartRow, Text("id"), Text("x"), EndRow, Eof])
            == Ok(Table(["id"], map["id" := ""]))
    ensures ParseTable(AsyncReader, RawText, [StartRow, Text("id"), Text("x"), EndRow, Eof])
            == Ok(EmptyTable)
  {
    var ev := [StartRow, Text("id"), Text("x"), EndRow, Eof];
    assert ev[1..] == [Text("id"), Text("x"), EndRow, Eof];
    assert ev[1..][1..] == [Text("x"), EndRow, Eof];
    assert ev[1..][1..][1..] == [EndRow, Eof];
    assert ev[1..][1..][1..][1..] == [Eof];
    assert EmptyTable.Insert("id", "") == Table(["id"], map["id" := ""]);
  }

  /** Text between rows is ignored, and a row always starts with no cells. */
  lemma TextOutsideRowIgnored(v: Variant, decode: string -> Option<string>, st: ParserState, raw: string, rest: seq<Event>)
    requires st.table.Valid() && !st.insideRow
    ensures Run(v, decode, st, [Text(raw)] + rest) == Run(v, decode, st, rest)
  {
    assert ([Text(raw)] + rest)[1..] == rest;
  }

  lemma RowStartsEmpty(v: Variant, decode: string -> Option<string>, st: ParserState, rest: seq<Event>)
    requires st.table.Valid()
    ensures Run(v, decode, st, [StartRow] + rest) == Run(v, decode, ParserState(true, [], st.table), rest)
  {
    assert ([StartRow] + rest)[1..] == rest;
  }

  lemma {:induction false} RawRowsNeverFail(inside: bool, cells: seq<string>, events: seq<Event>)
    requires Malformed !in events
    ensures RowsFrom(RawText, inside, cells, events).Ok?
    decreases |events|
  {
    if events != [] {
      assert Malformed !in events[1..];
      match events[0]
      case StartRow => RawRowsNeverFail(true, [], events[1..]);
      case EndRow => RawRowsNeverFail(false, [], events[1..]);
      case Text(raw) =>
        if inside {
          RawRowsNeverFail(inside, cells + [raw], events[1..]);
        } else {
          RawRowsNeverFail(inside, cells, events[1..]);
        }
      case Other => RawRowsNeverFail(inside, cells, events[1..]);
      case Eof =>
    }
  }

  /** The loops that keep raw text fail only on a reader error: the decoding step they guard
      with `?` cannot fail on text taken from a `String`. */
  lemma RawParseFailsOnlyOnReaderError(v: Variant, events: seq<Event>)
    requires Malformed !in events
    ensures ParseTable(v, RawText, events).Ok?
  {
    RawRowsNeverFail(false, [], events);
    ParseIsBuildOfRows(v, RawText, events);
  }

  // ---------------------------------------------------------------------------------------------
  // One language's archive

  /** The tables of one language: each managed file that is a member of the archive is parsed; a
      missing member is skipped; the first file that fails to parse fails the language. */
  function LanguageTables(v: Variant, decode: string -> Option<string>, archive: map<XmlFile, seq<Event>>,
                          files: seq<XmlFile>, acc: map<XmlFile, Table>): Result<map<XmlFile, Table>>
    decreases |files|
  {
    if files == [] then Ok(acc)
    else if files[0] !in archive then LanguageTables(v, decode, archive, files[1..], acc)
    else
      match ParseTable(v, decode, archive[files[0]])
      case Err(e) => Err(e)
      case Ok(t) => LanguageTables(v, decode, archive, files[1..], acc[files[0] := t])
  }

  /** The per-file loop of `read_single_language_xmls_sync`: it fills `language_data` file by file. */
  method ReadLanguage(decode: string -> Option<string>, archive: map<XmlFile, seq<Event>>, files: seq<XmlFile>)
    returns (r: Result<map<XmlFile, Table>>)
    ensures r == LanguageTables(AsyncReader, decode, archive, files, map[])
  {
    var languageData: map<XmlFile, Table> := map[];
    var i := 0;
    while i < |files|
      invariant 0 <= i <= |files|
      invariant LanguageTables(AsyncReader, decode, archive, files, map[])
                == LanguageTables(AsyncReader, decode, archive, files[i..], languageData)
    {
      assert files[i..][0] == files[i] && files[i..][1..] == files[i + 1..];
      var name := files[i];
      if name in archive {
        var t := ReadTable(AsyncReader, decode, archive[name]);
        if t.Err? {
          return Err(t.error);
        }
        languageData := languageData[name := t.value];
      }
      i := i + 1;
    }
    return Ok(languageData);
  }

  /** A language read succeeds with exactly the managed files its archive holds, each parsed on its own. */
  lemma {:induction false} LanguageTablesContents(v: Variant, decode: string -> Option<string>, archive: map<XmlFile, seq<Event>>,
                                                  files: seq<XmlFile>, acc: map<XmlFile, Table>, data: map<XmlFile, Table>)
    requires LanguageTables(v, decode, archive, files, acc) == Ok(data)
    ensures forall f :: f in data <==> f in acc || (f in files && f in archive)
    ensures forall f :: f in files && f in archive ==> ParseTable(v, decode, archive[f]) == Ok(data[f])
    ensures forall f :: f in acc && f !in files ==> data[f] == acc[f]
    decreases |files|
  {
    if files != [] {
      var f0 := files[0];
      if f0 !in archive {
        LanguageTablesContents(v, decode, archive, files[1..], acc, data);
      } else {
        var t := ParseTable(v, decode, archive[f0]).value;
        LanguageTablesContents(v, decode, archive, files[1..], acc[f0 := t], data);
        if f0 !in files[1..] {
          assert data[f0] == t;
        }
      }
      assert forall f :: f in files <==> f == f0 || f in files[1..];
    }
  }
}
