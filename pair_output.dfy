/** Generation of the bilingual XML files of one language pair: one row per entry of the primary
    language, in its order, and the text serialisation of rows and tables. */
module PairOutput {
  import opened Types
  import opened TextUtil
  import opened Combine
  import opened MergeRules

  /** The three cells of an output row: the id, the primary text and the merged text. */
  datatype OutRow = OutRow(id: EntryId, primary: TextValue, combined: TextValue)

  /** A file written into the pair's output directory, by name and content. */
  datatype GeneratedFile = GeneratedFile(name: XmlFile, content: string)

  /** The lookup of a secondary or English text, with the sentinel for a missing entry. */
  function LookupOr(t: Table, id: EntryId): (r: TextValue)
    ensures id in t.text ==> r == t.text[id]
    ensures id !in t.text ==> r == Missing
  {
    t.GetOr(id, Missing)
  }

  /** The sentinel is what a lookup gives exactly when the entry is absent or holds the sentinel. */
  lemma LookupOrMissingIff(t: Table, id: EntryId)
    ensures LookupOr(t, id) == Missing <==> id !in t.text || t.text[id] == Missing
  {
    GetOrDefaultIff(t, id, Missing);
  }

  /** A secondary or English entry whose stored text is `MISSING` yields the same row as no entry
      at all: the merge sees only the looked-up text. */
  lemma StoredMissingIsAbsent(rev: Revision, file: XmlFile, id: EntryId, primary: TextValue, secondary: Table, english: Table)
    ensures id in secondary.text && secondary.text[id] == Missing ==>
              MakeRow(rev, file, id, primary, secondary, english)
              == MakeRow(rev, file, id, primary, Table(secondary.order, secondary.text - {id}), english)
    ensures id in english.text && english.text[id] == Missing ==>
              MakeRow(rev, file, id, primary, secondary, english)
              == MakeRow(rev, file, id, primary, secondary, Table(english.order, english.text - {id}))
  {
    LookupOrMissingIff(secondary, id);
    LookupOrMissingIff(Table(secondary.order, secondary.text - {id}), id);
    LookupOrMissingIff(english, id);
    LookupOrMissingIff(Table(english.order, english.text - {id}), id);
  }

  /** The row for one primary entry. */
  function MakeRow(rev: Revision, file: XmlFile, id: EntryId, primary: TextValue, secondary: Table, english: Table): OutRow {
    OutRow(id, primary, Merge(rev, file, id, primary, LookupOr(secondary, id), LookupOr(english, id)))
  }

  /** The rows for the primary entries `keys`, in that order. */
  function PairRows(rev: Revision, file: XmlFile, keys: seq<EntryId>, text: map<EntryId, TextValue>, secondary: Table, english: Table): (rows: seq<OutRow>)
    requires forall i | 0 <= i < |keys| :: keys[i] in text
    ensures |rows| == |keys|
  {
    if keys == [] then []
    else [MakeRow(rev, file, keys[0], text[keys[0]], secondary, english)] + PairRows(rev, file, keys[1..], text, secondary, english)
  }

  /** Row `i` belongs to the `i`-th key. */
  lemma {:induction false} PairRowsAt(rev: Revision, file: XmlFile, keys: seq<EntryId>, text: map<EntryId, TextValue>, secondary: Table, english: Table)
    requires forall i | 0 <= i < |keys| :: keys[i] in text
    ensures forall i | 0 <= i < |keys| ::
              PairRows(rev, file, keys, text, secondary, english)[i] == MakeRow(rev, file, keys[i], text[keys[i]], secondary, english)
  {
    if keys != [] {
      PairRowsAt(rev, file, keys[1..], text, secondary, english);
      forall i | 0 < i < |keys|
        ensures PairRows(rev, file, keys, text, secondary, english)[i] == MakeRow(rev, file, keys[i], text[keys[i]], secondary, english)
      {
        assert keys[i] == keys[1..][i - 1];
      }
    }
  }

  /** One output row per primary entry, in the primary table's order; its second cell is the
      primary text and its third cell starts with it. */
  lemma PairRowsFollowPrimary(rev: Revision, file: XmlFile, primary: Table, secondary: Table, english: Table)
    requires primary.Valid()
    ensures var rows := PairRows(rev, file, primary.order, primary.text, secondary, english);
            && |rows| == |primary.order|
            && (forall i | 0 <= i < |rows| ::
                  rows[i].id == primary.order[i] && rows[i].primary == primary.text[rows[i].id]
                  && IsPrefix(rows[i].primary, rows[i].combined))
            && NoDup(seq(|rows|, i requires 0 <= i < |rows| => rows[i].id))
  {
    var rows := PairRows(rev, file, primary.order, primary.text, secondary, english);
    PairRowsAt(rev, file, primary.order, primary.text, secondary, english);
    forall i | 0 <= i < |rows| ensures IsPrefix(rows[i].primary, rows[i].combined) {
      var id := primary.order[i];
      if rev == Current {
        assert IsPrefix(primary.text[id], MergeCurrent(file, id, primary.text[id], LookupOr(secondary, id), LookupOr(english, id)));
      } else {
        assert IsPrefix(primary.text[id], MergeLegacy(file, id, primary.text[id], LookupOr(secondary, id), LookupOr(english, id)));
      }
    }
    assert seq(|rows|, i requires 0 <= i < |rows| => rows[i].id) == primary.order;
  }

  /** An entry that only the secondary or English table holds produces no row. */
  lemma NoRowWithoutPrimary(rev: Revision, file: XmlFile, primary: Table, secondary: Table, english: Table, id: EntryId)
    requires primary.Valid() && id !in primary.text
    ensures forall r | r in PairRows(rev, file, primary.order, primary.text, secondary, english) :: r.id != id
  {
    PairRowsAt(rev, file, primary.order, primary.text, secondary, english);
  }

  /** One more key adds its row at the end. */
  lemma {:induction false} PairRowsSnoc(rev: Revision, file: XmlFile, keys: seq<EntryId>, k: EntryId, text: map<EntryId, TextValue>, secondary: Table, english: Table)
    requires forall i | 0 <= i < |keys| :: keys[i] in text
    requires k in text
    ensures PairRows(rev, file, keys + [k], text, secondary, english)
            == PairRows(rev, file, keys, text, secondary, english) + [MakeRow(rev, file, k, text[k], secondary, english)]
  {
    if keys == [] {
      assert [k][1..] == [];
    } else {
      assert (keys + [k])[1..] == keys[1..] + [k];
      PairRowsSnoc(rev, file, keys[1..], k, text, secondary, english);
    }
  }

  /** Building the rows of one file by pushing one row per primary entry. */
  method BuildRows(rev: Revision, file: XmlFile, primary: Table, secondary: Table, english: Table) returns (rows: seq<OutRow>)
    requires forall i | 0 <= i < |primary.order| :: primary.order[i] in primary.text
    ensures rows == PairRows(rev, file, primary.order, primary.text, secondary, english)
  {
    rows := [];
    var i := 0;
    while i < |primary.order|
      invariant 0 <= i <= |primary.order|
      invariant rows == PairRows(rev, file, primary.order[..i], primary.text, secondary, english)
    {
      var id := primary.order[i];
      assert primary.order[..i + 1] == primary.order[..i] + [id];
      PairRowsSnoc(rev, file, primary.order[..i], id, primary.text, secondary, english);
      rows := rows + [MakeRow(rev, file, id, primary.text[id], secondary, english)];
      i := i + 1;
    }
    assert primary.order[..i] == primary.order;
  }

  // ---------------------------------------------------------------------------------------
  // Serialisation; "\n" here is the newline character
  // ---------------------------------------------------------------------------------------

  /** One row line: the three cells inside a `Row` element. */
  function RenderRow(r: OutRow): string {
    "<Row><Cell>" + (r.id + ("</Cell><Cell>" + (r.primary + ("</Cell><Cell>" + (r.combined + "</Cell></Row>")))))
  }

  function RenderRows(rows: seq<OutRow>): (lines: seq<string>)
    ensures |lines| == |rows|
    ensures forall i | 0 <= i < |rows| :: lines[i] == RenderRow(rows[i])
  {
    if rows == [] then [] else [RenderRow(rows[0])] + RenderRows(rows[1..])
  }

  /** The content written for one file: the rows, one per line, between the table tags. */
  function RenderTable(rows: seq<OutRow>): string {
    "<Table>\n" + Join(RenderRows(rows), "\n") + "\n</Table>"
  }

  /** No cell of the row holds `c`. */
  predicate CellsFree(r: OutRow, c: char) {
    c !in r.id && c !in r.primary && c !in r.combined
  }

  /** The text pieces between the `<` characters of a rendered row. */
  function RowPieces(r: OutRow): seq<string> {
    ["", "Row>", "Cell>" + r.id, "/Cell>", "Cell>" + r.primary, "/Cell>", "Cell>" + r.combined, "/Cell>", "/Row>"]
  }

  /** Reading a rendered row back: split it on `<` and take the three cell texts. */
  function ParseRow(line: string): Option<OutRow> {
    var parts := Split(line, '<');
    if |parts| == 9 && parts[0] == "" && parts[1] == "Row>" && parts[3] == "/Cell>" && parts[5] == "/Cell>"
       && parts[7] == "/Cell>" && parts[8] == "/Row>"
       && IsPrefix("Cell>", parts[2]) && IsPrefix("Cell>", parts[4]) && IsPrefix("Cell>", parts[6])
    then Some(OutRow(parts[2][5..], parts[4][5..], parts[6][5..]))
    else None
  }

  /** A cell piece `Cell>` + text holds no `<` when the text holds none. */
  lemma CellPieceFree(text: string)
    requires '<' !in text
    ensures '<' !in "Cell>" + text
    ensures ("Cell>" + text)[5..] == text
  {
  }

  /** Nine pieces without `<`, joined by `<`, split back into themselves. */
  lemma SplitNinePieces(a0: string, a1: string, a2: string, a3: string, a4: string, a5: string, a6: string, a7: string, a8: string)
    requires '<' !in a0 && '<' !in a1 && '<' !in a2 && '<' !in a3 && '<' !in a4
    requires '<' !in a5 && '<' !in a6 && '<' !in a7 && '<' !in a8
    ensures Split(a0 + "<" + (a1 + "<" + (a2 + "<" + (a3 + "<" + (a4 + "<" + (a5 + "<" + (a6 + "<" + (a7 + "<" + a8))))))), '<')
            == [a0, a1, a2, a3, a4, a5, a6, a7, a8]
  {
    var t5 := a5 + "<" + (a6 + "<" + (a7 + "<" + a8));
    var t2 := a2 + "<" + (a3 + "<" + (a4 + "<" + t5));
    SplitNoSeparator(a8, '<');
    SplitCons3(a5, a6, a7, a8, [a8], '<');
    SplitCons3(a2, a3, a4, t5, [a5, a6, a7, a8], '<');
    SplitCons(a1, t2, [a2, a3, a4, a5, a6, a7, a8], '<');
    SplitCons(a0, a1 + "<" + t2, [a1, a2, a3, a4, a5, a6, a7, a8], '<');
  }

  /** A rendered row is its pieces joined by `<`. */
  lemma RenderRowPieces(id: string, primary: string, combined: string)
    ensures RenderRow(OutRow(id, primary, combined))
            == "" + "<" + ("Row>" + "<" + (("Cell>" + id) + "<" + ("/Cell>" + "<" + (("Cell>" + primary) + "<" +
               ("/Cell>" + "<" + (("Cell>" + combined) + "<" + ("/Cell>" + "<" + "/Row>")))))))
  {
    var e6 := combined + "</Cell></Row>";
    var t5 := "/Cell>" + "<" + (("Cell>" + combined) + "<" + ("/Cell>" + "<" + "/Row>"));
    LastCellPieces(combined);
    var e4 := primary + ("</Cell><Cell>" + e6);
    var t3 := "/Cell>" + "<" + (("Cell>" + primary) + "<" + t5);
    InnerCellPieces(primary, e6, t5);
    FirstCellPieces(id, e4, t3);
  }

  /** The text from the second cell break on, split at its `<`s. */
  lemma LastCellPieces(c: string)
    ensures "</Cell><Cell>" + (c + "</Cell></Row>")
            == "<" + ("/Cell>" + "<" + (("Cell>" + c) + "<" + ("/Cell>" + "<" + "/Row>")))
  {
    assert "</Cell><Cell>" == "<" + "/Cell>" + "<" + "Cell>";
    assert "</Cell></Row>" == "<" + "/Cell>" + "<" + "/Row>";
  }

  /** One more cell in front of a cell break whose pieces are known. */
  lemma InnerCellPieces(c: string, e: string, t: string)
    requires "</Cell><Cell>" + e == "<" + t
    ensures "</Cell><Cell>" + (c + ("</Cell><Cell>" + e)) == "<" + ("/Cell>" + "<" + (("Cell>" + c) + "<" + t))
  {
    assert "</Cell><Cell>" == "<" + "/Cell>" + "<" + "Cell>";
  }

  /** The row start and the first cell in front of a cell break whose pieces are known. */
  lemma FirstCellPieces(c: string, e: string, t: string)
    requires "</Cell><Cell>" + e == "<" + t
    ensures "<Row><Cell>" + (c + ("</Cell><Cell>" + e)) == "" + "<" + ("Row>" + "<" + (("Cell>" + c) + "<" + t))
  {
    assert "<Row><Cell>" == "" + "<" + "Row>" + "<" + "Cell>";
  }

  /** Splitting a rendered row on `<` gives its pieces, when no cell holds a `<`. */
  lemma SplitRenderedRow(r: OutRow)
    requires CellsFree(r, '<')
    ensures Split(RenderRow(r), '<') == RowPieces(r)
  {
    CellPieceFree(r.id);
    CellPieceFree(r.primary);
    CellPieceFree(r.combined);
    RenderRowPieces(r.id, r.primary, r.combined);
    SplitNinePieces("", "Row>", "Cell>" + r.id, "/Cell>", "Cell>" + r.primary, "/Cell>", "Cell>" + r.combined, "/Cell>", "/Row>");
  }

  /** A rendered row reads back as the same row when no cell holds a `<`. */
  lemma ParseRenderRow(r: OutRow)
    requires CellsFree(r, '<')
    ensures ParseRow(RenderRow(r)) == Some(r)
  {
    SplitRenderedRow(r);
    CellPieceFree(r.id);
    CellPieceFree(r.primary);
    CellPieceFree(r.combined);
  }

  /** A cell holding a `<` breaks the read-back: the rendered row then splits into more than nine
      pieces. The async revision writes cell texts unescaped, so a source text that held `&lt;`
      gives such a row. */
  lemma CellWithLessThanUnreadable(r: OutRow)
    requires !CellsFree(r, '<')
    ensures ParseRow(RenderRow(r)) == None
  {
    var e6 := r.combined + "</Cell></Row>";
    var e5 := "</Cell><Cell>" + e6;
    var e4 := r.primary + e5;
    var e3 := "</Cell><Cell>" + e4;
    var e2 := r.id + e3;
    RowEndCount();
    CellBreakCount();
    RowStartCount();
    CountAppend(r.combined, "</Cell></Row>", '<');
    CountAppend("</Cell><Cell>", e6, '<');
    CountAppend(r.primary, e5, '<');
    CountAppend("</Cell><Cell>", e4, '<');
    CountAppend(r.id, e3, '<');
    CountAppend("<Row><Cell>", e2, '<');
    if '<' in r.id {
      CountPositive(r.id, '<');
    } else if '<' in r.primary {
      CountPositive(r.primary, '<');
    } else {
      CountPositive(r.combined, '<');
    }
    assert |Split(RenderRow(r), '<')| >= 10;
  }

  /** Each fixed piece of a rendered row holds two `<`. */
  lemma RowEndCount()
    ensures Count("</Cell></Row>", '<') == 2
  {
    TwoTagsCount("/Cell>", "/Row>");
    assert "</Cell></Row>" == "<" + "/Cell>" + ("<" + "/Row>");
  }

  lemma CellBreakCount()
    ensures Count("</Cell><Cell>", '<') == 2
  {
    TwoTagsCount("/Cell>", "Cell>");
    assert "</Cell><Cell>" == "<" + "/Cell>" + ("<" + "Cell>");
  }

  lemma RowStartCount()
    ensures Count("<Row><Cell>", '<') == 2
  {
    TwoTagsCount("Row>", "Cell>");
    assert "<Row><Cell>" == "<" + "Row>" + ("<" + "Cell>");
  }

  lemma TwoTagsCount(x: string, y: string)
    requires '<' !in x && '<' !in y
    ensures Count("<" + x + ("<" + y), '<') == 2
  {
    CountAppend("<" + x, "<" + y, '<');
    CountAppend("<", x, '<');
    CountAppend("<", y, '<');
    CountAbsent(x, '<');
    CountAbsent(y, '<');
    assert Count("<", '<') == 1;
  }

  /** The lines of a rendered table: the opening tag, the rows (or one empty line when there
      are none) and the closing tag. */
  function TableLines(rows: seq<OutRow>): seq<string> {
    ["<Table>"] + (if rows == [] then [""] else RenderRows(rows)) + ["</Table>"]
  }

  lemma RenderTableIsJoin(rows: seq<OutRow>)
    ensures RenderTable(rows) == Join(TableLines(rows), "\n")
  {
    var lines := if rows == [] then [""] else RenderRows(rows);
    assert Join(lines, "\n") == Join(RenderRows(rows), "\n");
    JoinSnoc(lines, "</Table>", "\n");
    assert TableLines(rows) == ["<Table>"] + (lines + ["</Table>"]);
    assert TableLines(rows)[1..] == lines + ["</Table>"];
  }

  /** Splitting a rendered table on the newline character gives its lines back, when no cell
      holds a newline character. */
  lemma RenderTableLines(rows: seq<OutRow>)
    requires forall i | 0 <= i < |rows| :: CellsFree(rows[i], '\n')
    ensures Split(RenderTable(rows), '\n') == TableLines(rows)
  {
    var all := TableLines(rows);
    forall i | 0 <= i < |all| ensures '\n' !in all[i] {
      if 0 < i < |all| - 1 && rows != [] {
        RowFreeOfNewline(rows[i - 1]);
      }
    }
    RenderTableIsJoin(rows);
    SplitJoin(all, '\n');
  }

  lemma RowFreeOfNewline(r: OutRow)
    requires CellsFree(r, '\n')
    ensures '\n' !in RenderRow(r)
  {
  }

  // ---------------------------------------------------------------------------------------
  // The files of one pair in each revision
  // ---------------------------------------------------------------------------------------

  /** A language's table for a file, or the empty table when the language has none. */
  function TableOr(data: map<XmlFile, Table>, file: XmlFile): Table {
    if file in data then data[file] else EmptyTable
  }

  /** Every key in a table's order has a text: all that row generation needs of a table. */
  predicate KeysListed(t: Table) {
    forall i | 0 <= i < |t.order| :: t.order[i] in t.text
  }

  predicate AllKeysListed(data: map<XmlFile, Table>) {
    forall f | f in data :: KeysListed(data[f])
  }

  /** A well-formed table has a text for every key of its order. */
  lemma ValidKeysListed(t: Table)
    requires t.Valid()
    ensures KeysListed(t)
  {
  }

  /** The file written for `f`, whose primary table exists, in the asynchronous revision. */
  function AsyncFile(f: XmlFile, primary: map<XmlFile, Table>, secondary: map<XmlFile, Table>, english: map<XmlFile, Table>): GeneratedFile
    requires f in primary && KeysListed(primary[f])
  {
    GeneratedFile(f, RenderTable(PairRows(Current, f, primary[f].order, primary[f].text, TableOr(secondary, f), TableOr(english, f))))
  }

  /** The asynchronous revision: a file the primary language lacks is skipped; every other file
      gets the rows of its primary table. */
  function AsyncPairFiles(files: seq<XmlFile>, primary: map<XmlFile, Table>, secondary: map<XmlFile, Table>, english: map<XmlFile, Table>): seq<GeneratedFile>
    requires AllKeysListed(primary)
  {
    if files == [] then []
    else
      var rest := AsyncPairFiles(files[1..], primary, secondary, english);
      var f := files[0];
      if f !in primary then rest
      else [AsyncFile(f, primary, secondary, english)] + rest
  }

  /** The files of `files` that the primary language has, in order. */
  function FilesPresent(files: seq<XmlFile>, primary: map<XmlFile, Table>): (r: seq<XmlFile>)
    ensures forall f | f in r :: f in files && f in primary
    ensures forall f | f in files && f in primary :: f in r
  {
    if files == [] then []
    else if files[0] in primary then [files[0]] + FilesPresent(files[1..], primary)
    else FilesPresent(files[1..], primary)
  }

  /** The asynchronous revision writes exactly the files the primary language has, in the
      configured order, each with the rows of its primary table. */
  lemma {:induction false} AsyncPairFilesContents(files: seq<XmlFile>, primary: map<XmlFile, Table>, secondary: map<XmlFile, Table>, english: map<XmlFile, Table>)
    requires AllKeysListed(primary)
    ensures var out := AsyncPairFiles(files, primary, secondary, english);
            && |out| == |FilesPresent(files, primary)|
            && forall i | 0 <= i < |out| ::
                 && out[i].name == FilesPresent(files, primary)[i]
                 && out[i] == AsyncFile(out[i].name, primary, secondary, english)
  {
    if files != [] {
      var out := AsyncPairFiles(files, primary, secondary, english);
      var rest := AsyncPairFiles(files[1..], primary, secondary, english);
      var present := FilesPresent(files, primary);
      var presentRest := FilesPresent(files[1..], primary);
      AsyncPairFilesContents(files[1..], primary, secondary, english);
      if files[0] in primary {
        assert out == [AsyncFile(files[0], primary, secondary, english)] + rest;
        assert present == [files[0]] + presentRest;
        forall i | 0 < i < |out|
          ensures out[i] == rest[i - 1] && present[i] == presentRest[i - 1]
        {
        }
      } else {
        assert out == rest && present == presentRest;
      }
    }
  }

  /** The rows of one file, rendered as the file's content. */
  method BuildPairFile(f: XmlFile, primary: map<XmlFile, Table>, secondary: map<XmlFile, Table>, english: map<XmlFile, Table>)
    returns (file: GeneratedFile)
    requires f in primary && KeysListed(primary[f])
    ensures file == AsyncFile(f, primary, secondary, english)
  {
    var rows := BuildRows(Current, f, primary[f], TableOr(secondary, f), TableOr(english, f));
    file := GeneratedFile(f, RenderTable(rows));
  }

  /** The loop of the asynchronous pair processor over the configured files. */
  /** One step of the file loop: the files from `i` on are file `i`'s output, if any, then the rest. */
  lemma AsyncPairFilesStep(files: seq<XmlFile>, i: nat, primary: map<XmlFile, Table>, secondary: map<XmlFile, Table>, english: map<XmlFile, Table>)
    requires AllKeysListed(primary) && i < |files|
    ensures files[i] in primary ==>
              AsyncPairFiles(files[i..], primary, secondary, english)
              == [AsyncFile(files[i], primary, secondary, english)] + AsyncPairFiles(files[i + 1..], primary, secondary, english)
    ensures files[i] !in primary ==>
              AsyncPairFiles(files[i..], primary, secondary, english) == AsyncPairFiles(files[i + 1..], primary, secondary, english)
  {
    assert files[i..][1..] == files[i + 1..];
  }

  lemma SnocAssoc<T>(s: seq<T>, x: T, t: seq<T>)
    ensures (s + [x]) + t == s + ([x] + t)
  {
  }

  method GeneratePairFiles(files: seq<XmlFile>, primary: map<XmlFile, Table>, secondary: map<XmlFile, Table>, english: map<XmlFile, Table>)
    returns (generated: seq<GeneratedFile>)
    requires AllKeysListed(primary)
    ensures generated == AsyncPairFiles(files, primary, secondary, english)
  {
    generated := [];
    ghost var all := AsyncPairFiles(files, primary, secondary, english);
    assert files[0..] == files;
    var i := 0;
    while i < |files|
      invariant 0 <= i <= |files|
      invariant generated + AsyncPairFiles(files[i..], primary, secondary, english) == all
    {
      var f := files[i];
      AsyncPairFilesStep(files, i, primary, secondary, english);
      ghost var later := AsyncPairFiles(files[i + 1..], primary, secondary, english);
      if f in primary {
        var file := BuildPairFile(f, primary, secondary, english);
        SnocAssoc(generated, file, later);
        generated := generated + [file];
      }
      i := i + 1;
    }
  }

  /** The first revision: a file no language has is skipped; a file the primary language lacks
      is still written, with no rows. */
  function LegacyPairFiles(files: seq<XmlFile>, allData: map<XmlFile, map<Language, Table>>, primaryLanguage: Language, secondaryLanguage: Language): seq<GeneratedFile>
    requires forall f | f in allData :: forall l | l in allData[f] :: allData[f][l].Valid()
  {
    if files == [] then []
    else
      var rest := LegacyPairFiles(files[1..], allData, primaryLanguage, secondaryLanguage);
      var f := files[0];
      if f !in allData then rest
      else
        var byLanguage := allData[f];
        var secondary := if secondaryLanguage in byLanguage then byLanguage[secondaryLanguage] else EmptyTable;
        var english := if "English" in byLanguage then byLanguage["English"] else EmptyTable;
        var rows := if primaryLanguage in byLanguage
                    then PairRows(Legacy, f, byLanguage[primaryLanguage].order, byLanguage[primaryLanguage].text, secondary, english)
                    else [];
        [GeneratedFile(f, RenderTable(rows))] + rest
  }

  /** In the first revision, a file present for some language but not for the primary language
      is written as an empty table. */
  lemma {:induction false} LegacyMissingPrimaryIsEmpty(files: seq<XmlFile>, allData: map<XmlFile, map<Language, Table>>, primaryLanguage: Language, secondaryLanguage: Language, f: XmlFile)
    requires forall f | f in allData :: forall l | l in allData[f] :: allData[f][l].Valid()
    requires f in files && f in allData && primaryLanguage !in allData[f]
    ensures GeneratedFile(f, "<Table>\n\n</Table>") in LegacyPairFiles(files, allData, primaryLanguage, secondaryLanguage)
  {
    if files[0] != f {
      LegacyMissingPrimaryIsEmpty(files[1..], allData, primaryLanguage, secondaryLanguage, f);
    } else {
      assert RenderTable([]) == "<Table>\n\n</Table>";
    }
  }

  /** In the first revision, a file no language has is never written. */
  lemma {:induction false} LegacyUnknownFileSkipped(files: seq<XmlFile>, allData: map<XmlFile, map<Language, Table>>, primaryLanguage: Language, secondaryLanguage: Language, f: XmlFile)
    requires forall f | f in allData :: forall l | l in allData[f] :: allData[f][l].Valid()
    requires f !in allData
    ensures forall g | g in LegacyPairFiles(files, allData, primaryLanguage, secondaryLanguage) :: g.name != f
  {
    if files != [] {
      LegacyUnknownFileSkipped(files[1..], allData, primaryLanguage, secondaryLanguage, f);
    }
  }

  /** The database revision, with the stored tables standing for the query results: the first
      file in order whose primary table is empty fails the pair. */
  function DbPairFiles(files: seq<XmlFile>, primaryLanguage: Language, primary: map<XmlFile, Table>, secondary: map<XmlFile, Table>, english: map<XmlFile, Table>): Result<seq<GeneratedFile>>
    requires AllKeysListed(primary)
  {
    if files == [] then Ok([])
    else
      var f := files[0];
      var p := TableOr(primary, f);
      if p.order == [] then Err(DatabaseDataMissing(f, primaryLanguage))
      else
        match DbPairFiles(files[1..], primaryLanguage, primary, secondary, english)
        case Err(e) => Err(e)
        case Ok(rest) =>
          var rows := PairRows(Current, f, p.order, p.text, TableOr(secondary, f), TableOr(english, f));
          Ok([GeneratedFile(f, RenderTable(rows))] + rest)
  }

  /** The database revision fails exactly when some configured file has no primary entries, and
      then names the first such file; otherwise it writes every configured file. */
  lemma {:induction false} DbPairFilesOutcome(files: seq<XmlFile>, primaryLanguage: Language, primary: map<XmlFile, Table>, secondary: map<XmlFile, Table>, english: map<XmlFile, Table>)
    requires AllKeysListed(primary)
    ensures var r := DbPairFiles(files, primaryLanguage, primary, secondary, english);
            && (r.Err? <==> exists i | 0 <= i < |files| :: TableOr(primary, files[i]).order == [])
            && (r.Err? ==> exists i | 0 <= i < |files| ::
                             && TableOr(primary, files[i]).order == []
                             && (forall j | 0 <= j < i :: TableOr(primary, files[j]).order != [])
                             && r.error == DatabaseDataMissing(files[i], primaryLanguage))
            && (r.Ok? ==> |r.value| == |files| && forall i | 0 <= i < |files| :: r.value[i].name == files[i])
  {
    if files != [] {
      DbPairFilesOutcome(files[1..], primaryLanguage, primary, secondary, english);
      var r := DbPairFiles(files, primaryLanguage, primary, secondary, english);
      var rest := DbPairFiles(files[1..], primaryLanguage, primary, secondary, english);
      if TableOr(primary, files[0]).order != [] {
        if rest.Err? {
          var i :| 0 <= i < |files[1..]| && TableOr(primary, files[1..][i]).order == []
                   && (forall j | 0 <= j < i :: TableOr(primary, files[1..][j]).order != [])
                   && rest.error == DatabaseDataMissing(files[1..][i], primaryLanguage);
          assert TableOr(primary, files[i + 1]).order == [];
          forall j | 0 <= j < i + 1 ensures TableOr(primary, files[j]).order != [] {
            if j > 0 { assert files[j] == files[1..][j - 1]; }
          }
        } else {
          forall i | 0 <= i < |files| ensures TableOr(primary, files[i]).order != [] {
            if i > 0 { assert files[i] == files[1..][i - 1]; }
          }
        }
      }
    }
  }
}
