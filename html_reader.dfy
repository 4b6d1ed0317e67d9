/** Readers for the HTML that the notebook renderers write. Each reader
  * undoes one renderer, and the lemmas here show which inputs survive the
  * trip: everything for `Dict`, whose text is escaped, and only cells
  * without `<` for `Table` and `DictTable`, whose cells are not. */
module HtmlReader {
  import opened Wrappers
  import opened Notebook
  import opened Seqs

  // ---------------------------------------------------------------------
  // Reading pieces of a string

  /** `s` without the prefix `p`, if `s` starts with it. */
  function StripPrefix(p: string, s: string): (r: Option<string>)
    ensures r.Some? <==> p <= s
    ensures r.Some? ==> p + r.value == s
  {
    if p <= s then Some(s[|p|..]) else None
  }

  lemma StripPrefixConcat(p: string, t: string)
    ensures StripPrefix(p, p + t) == Some(t)
  {
    assert p <= p + t;
    assert (p + t)[|p|..] == t;
  }

  /** The text before the first `<`, and what follows it. */
  function TextUntilTag(s: string): (r: (string, string))
    ensures r.0 + r.1 == s
    ensures '<' !in r.0
    ensures r.1 == [] || r.1[0] == '<'
  {
    if s == [] || s[0] == '<' then ([], s)
    else
      var (text, rest) := TextUntilTag(s[1..]);
      HeadTail(s);
      ([s[0]] + text, rest)
  }

  /** Text without `<` followed by a tag is read back as that text. */
  lemma {:induction false} TextUntilTagConcat(text: string, rest: string)
    requires '<' !in text
    requires rest == [] || rest[0] == '<'
    ensures TextUntilTag(text + rest) == (text, rest)
  {
    if text == [] {
      assert text + rest == rest;
    } else {
      assert (text + rest)[0] == text[0];
      assert (text + rest)[1..] == text[1..] + rest;
      TextUntilTagConcat(text[1..], rest);
      assert [text[0]] + text[1..] == text;
    }
  }

  function Open(tag: string): string
  {
    "<" + tag + ">"
  }

  function Close(tag: string): string
  {
    "</" + tag + ">"
  }

  /** A closing tag starts with `</`, so never with a space. */
  lemma CloseStartsClosing(tag: string, rest: string)
    ensures "</" <= Close(tag) + rest && !(" " <= Close(tag) + rest)
  {
    var s := Close(tag) + rest;
    assert s[0] == '<' && s[1] == '/';
  }

  lemma Regroup(a: string, b: string, c: string, d: string)
    ensures a + b + c + d == a + (b + (c + d))
  {
  }

  lemma WrapWhole(tag: string, inner: string)
    ensures Wrap(tag, inner) == Open(tag) + (inner + Close(tag))
  {
  }

  lemma WrapParts(tag: string, inner: string, rest: string)
    ensures Wrap(tag, inner) + rest == Open(tag) + (inner + (Close(tag) + rest))
  {
  }

  /** The inside of `<tag>...</tag>`. */
  function Unwrap(tag: string, s: string): (r: Option<string>)
    ensures r.Some? ==> |r.value| == |s| - |Open(tag)| - |Close(tag)|
  {
    if Open(tag) <= s && |s| >= |Open(tag)| + |Close(tag)| && s[|s| - |Close(tag)|..] == Close(tag)
    then Some(s[|Open(tag)|..|s| - |Close(tag)|])
    else None
  }

  /** `td`, `th`, `tr` and `table` keep their content intact: unwrapping
    * gives it back. */
  lemma UnwrapWrap(tag: string, inner: string)
    ensures Unwrap(tag, Wrap(tag, inner)) == Some(inner)
  {
    var s := Wrap(tag, inner);
    assert s == Open(tag) + inner + Close(tag);
    assert Open(tag) <= s;
    assert s[|s| - |Close(tag)|..] == Close(tag);
    assert s[|Open(tag)|..|s| - |Close(tag)|] == inner;
  }

  // ---------------------------------------------------------------------
  // Cells and rows

  /** One `<tag>text</tag>` element whose text holds no `<`. */
  function ReadLeaf(tag: string, s: string): (r: Option<(string, string)>)
    ensures r.Some? ==> |r.value.1| < |s|
  {
    match StripPrefix(Open(tag), s)
    case None => None
    case Some(s1) =>
      var (text, s2) := TextUntilTag(s1);
      match StripPrefix(Close(tag), s2)
      case None => None
      case Some(s3) => Some((text, s3))
  }

  lemma ReadLeafWrap(tag: string, text: string, rest: string)
    requires '<' !in text
    ensures ReadLeaf(tag, Wrap(tag, text) + rest) == Some((text, rest))
  {
    WrapParts(tag, text, rest);
    StripPrefixConcat(Open(tag), text + (Close(tag) + rest));
    TextUntilTagConcat(text, Close(tag) + rest);
    StripPrefixConcat(Close(tag), rest);
  }

  /** No element starts where a closing tag does. */
  lemma NoLeafAtClose(tag: string, rest: string)
    requires tag != [] && tag[0] != '/' && "</" <= rest
    ensures ReadLeaf(tag, rest) == None
  {
    assert Open(tag)[1] == tag[0];
  }

  /** As many leaf elements as there are in a row. */
  function ReadLeaves(tag: string, s: string): (r: (seq<string>, string))
    ensures |r.1| <= |s|
    decreases |s|
  {
    match ReadLeaf(tag, s)
    case None => ([], s)
    case Some((text, s1)) =>
      var (texts, s2) := ReadLeaves(tag, s1);
      ([text] + texts, s2)
  }

  predicate NoTags(items: seq<string>)
  {
    forall i :: 0 <= i < |items| ==> '<' !in items[i]
  }

  lemma NoTagsTail(items: seq<string>)
    requires items != [] && NoTags(items)
    ensures '<' !in items[0] && NoTags(items[1..])
  {
    forall i | 0 <= i < |items[1..]| ensures '<' !in items[1..][i] {
      assert items[1..][i] == items[i + 1];
    }
  }

  /** The elements of a non-empty run of cells: the first, then the rest. */
  lemma CellsCons(tag: string, items: seq<string>)
    requires items != []
    ensures Concat(Cells(tag, items)) == Wrap(tag, items[0]) + Concat(Cells(tag, items[1..]))
  {
    TailMatches(Cells(tag, items), Cells(tag, items[1..]));
  }

  lemma {:induction false} ReadLeavesCells(tag: string, items: seq<string>, rest: string)
    requires tag != [] && tag[0] != '/'
    requires NoTags(items) && "</" <= rest
    ensures ReadLeaves(tag, Concat(Cells(tag, items)) + rest) == (items, rest)
  {
    if items == [] {
      assert Concat(Cells(tag, items)) + rest == rest;
      NoLeafAtClose(tag, rest);
    } else {
      var tail := Concat(Cells(tag, items[1..])) + rest;
      CellsCons(tag, items);
      Assoc(Wrap(tag, items[0]), Concat(Cells(tag, items[1..])), rest);
      NoTagsTail(items);
      ReadLeafWrap(tag, items[0], tail);
      ReadLeavesCells(tag, items[1..], rest);
      HeadTail(items);
    }
  }

  /** `<tr>` cells `</tr>`. */
  function ReadRow(tag: string, s: string): (r: Option<(seq<string>, string)>)
    ensures r.Some? ==> |r.value.1| < |s|
  {
    match StripPrefix(Open("tr"), s)
    case None => None
    case Some(s1) =>
      var (cells, s2) := ReadLeaves(tag, s1);
      match StripPrefix(Close("tr"), s2)
      case None => None
      case Some(s3) => Some((cells, s3))
  }

  lemma ReadRowTr(tag: string, items: seq<string>, rest: string)
    requires tag != [] && tag[0] != '/' && NoTags(items)
    ensures ReadRow(tag, Tr(Cells(tag, items)) + rest) == Some((items, rest))
  {
    var inner := Concat(Cells(tag, items));
    var afterCells := Close("tr") + rest;
    WrapParts("tr", inner, rest);
    StripPrefixConcat(Open("tr"), inner + afterCells);
    CloseStartsClosing("tr", rest);
    ReadLeavesCells(tag, items, afterCells);
    StripPrefixConcat(Close("tr"), rest);
  }

  /** As many rows as there are in a table. */
  function ReadRows(tag: string, s: string): (r: (seq<seq<string>>, string))
    decreases |s|
  {
    match ReadRow(tag, s)
    case None => ([], s)
    case Some((cells, s1)) =>
      var (rows, s2) := ReadRows(tag, s1);
      ([cells] + rows, s2)
  }

  lemma RowsCons(tag: string, rows: seq<seq<string>>)
    requires rows != []
    ensures Concat(Rows(tag, rows)) == Tr(Cells(tag, rows[0])) + Concat(Rows(tag, rows[1..]))
  {
    TailMatches(Rows(tag, rows), Rows(tag, rows[1..]));
  }

  lemma {:induction false} ReadRowsOf(tag: string, rows: seq<seq<string>>, rest: string)
    requires tag != [] && tag[0] != '/'
    requires forall i :: 0 <= i < |rows| ==> NoTags(rows[i])
    requires "</" <= rest
    ensures ReadRows(tag, Concat(Rows(tag, rows)) + rest) == (rows, rest)
  {
    if rows == [] {
      assert Concat(Rows(tag, rows)) + rest == rest;
      assert !(Open("tr") <= rest) by {
        assert rest[1] == '/' && Open("tr")[1] == 't';
      }
    } else {
      var tail := Concat(Rows(tag, rows[1..])) + rest;
      RowsCons(tag, rows);
      Assoc(Tr(Cells(tag, rows[0])), Concat(Rows(tag, rows[1..])), rest);
      forall i | 0 <= i < |rows[1..]| ensures NoTags(rows[1..][i]) {
        assert rows[1..][i] == rows[i + 1];
      }
      ReadRowTr(tag, rows[0], tail);
      ReadRowsOf(tag, rows[1..], rest);
      HeadTail(rows);
    }
  }

  // ---------------------------------------------------------------------
  // Table and DictTable

  /** The cells of a table of `td` rows. */
  function ReadTable(s: string): Option<seq<seq<string>>>
  {
    match StripPrefix(Open("table"), s)
    case None => None
    case Some(s1) =>
      var (rows, s2) := ReadRows("td", s1);
      if s2 == Close("table") then Some(rows) else None
  }

  /** `Table._repr_html_` writes every row and cell in order: reading the
    * table back gives the rows, as long as no cell holds a `<` (cells are
    * not escaped). */
  lemma TableRoundTrip(rows: seq<seq<string>>)
    requires forall i :: 0 <= i < |rows| ==> NoTags(rows[i])
    ensures ReadTable(TableView(rows).ReprHtml()) == Some(rows)
  {
    var inner := Concat(Rows("td", rows));
    assert TableView(rows).ReprHtml() == Wrap("table", inner);
    WrapWhole("table", inner);
    StripPrefixConcat(Open("table"), inner + Close("table"));
    CloseStartsClosing("table", []);
    ReadRowsOf("td", rows, Close("table"));
  }

  /** The header keys and the cell rows of a table with one `th` row. */
  function ReadDictTable(s: string): Option<(seq<string>, seq<seq<string>>)>
  {
    match StripPrefix(Open("table"), s)
    case None => None
    case Some(s1) =>
      match ReadRow("th", s1)
      case None => None
      case Some((keys, s2)) =>
        var (rows, s3) := ReadRows("td", s2);
        if s3 == Close("table") then Some((keys, rows)) else None
  }

  /** No value of any record holds a `<`. */
  predicate PlainRecords(records: seq<map<string, string>>)
  {
    forall i, k :: 0 <= i < |records| && k in records[i] ==> '<' !in records[i][k]
  }

  lemma PlainCells(records: seq<map<string, string>>, keys: seq<string>, missing: string)
    requires PlainRecords(records) && '<' !in missing
    ensures forall i :: 0 <= i < |records| ==> NoTags(CellMatrix(records, keys, missing)[i])
  {
  }

  /** A rendered `DictTable` holds a header row of the keys, then for each
    * record, in order, the row of `record.get(key, missing)` over the keys.
    * The trip back needs keys, values and placeholder without `<`; the
    * default placeholder is itself markup and does not qualify. */
  lemma DictTableRoundTrip(records: seq<map<string, string>>, keys: seq<string>, missing: string)
    requires NoTags(keys) && PlainRecords(records) && '<' !in missing
    ensures ReadDictTable(DictTableHtml(records, keys, missing)) ==
      Some((keys, CellMatrix(records, keys, missing)))
  {
    var cells := CellMatrix(records, keys, missing);
    var body := Concat(Rows("td", cells));
    var header := Tr(Cells("th", keys));
    DictTableLayout(records, keys, missing);
    StripPrefixConcat(Open("table"), header + (body + Close("table")));
    ReadRowTr("th", keys, body + Close("table"));
    PlainCells(records, keys, missing);
    CloseStartsClosing("table", []);
    ReadRowsOf("td", cells, Close("table"));
  }

  lemma DictTableLayout(records: seq<map<string, string>>, keys: seq<string>, missing: string)
    ensures DictTableHtml(records, keys, missing) ==
      Open("table") + (Tr(Cells("th", keys)) + (Concat(Rows("td", CellMatrix(records, keys, missing))) + Close("table")))
  {
    var rows := Rows("td", CellMatrix(records, keys, missing));
    var header := Tr(Cells("th", keys));
    var inner := Concat([header] + rows);
    assert DictTableHtml(records, keys, missing) == Wrap("table", inner);
    ConsTail(header, rows);
    assert inner == header + Concat(rows);
    WrapWhole("table", inner);
    Assoc(header, Concat(rows), Close("table"));
  }

  /** A cell that itself starts with a tag other than a closing one is not
    * read back as a cell: the text before its first `<` is empty, and what
    * follows is not `</td>`. */
  lemma MarkupLeafUnread(cell: string, rest: string)
    requires |cell| >= 2 && cell[0] == '<' && cell[1] != '/'
    ensures ReadLeaf("td", Open("td") + (cell + rest)) == None
  {
    var s1 := cell + rest;
    StripPrefixConcat(Open("td"), s1);
    assert s1[0] == '<' && s1[1] != '/';
    assert TextUntilTag(s1) == ([], s1);
    assert Close("td")[1] == '/';
  }

  /** Nor is a row holding such a cell read back. */
  lemma MarkupRowUnread(cell: string, rest: string)
    requires |cell| >= 2 && cell[0] == '<' && cell[1] != '/'
    ensures ReadRow("td", Tr(Cells("td", [cell])) + rest) == None
  {
    var inner := Concat(Cells("td", [cell]));
    var after := Close("tr") + rest;
    CellsCons("td", [cell]);
    assert Cells("td", [cell][1..]) == [];
    assert inner == Wrap("td", cell) + [];
    WrapParts("tr", inner, rest);
    StripPrefixConcat(Open("tr"), inner + after);
    WrapParts("td", cell, after);
    MarkupLeafUnread(cell, Close("td") + after);
    assert ReadLeaves("td", inner + after) == ([], inner + after);
    assert (inner + after)[1] == 't' && Close("tr")[1] == '/';
  }

  /** Nor is a table whose one body row holds such a cell. */
  lemma MarkupTableUnread(keys: seq<string>, cell: string)
    requires NoTags(keys) && |cell| >= 2 && cell[0] == '<' && cell[1] != '/'
    ensures ReadDictTable(Open("table") + (Tr(Cells("th", keys)) + (Tr(Cells("td", [cell])) + Close("table")))) == None
  {
    var body := Tr(Cells("td", [cell])) + Close("table");
    StripPrefixConcat(Open("table"), Tr(Cells("th", keys)) + body);
    ReadRowTr("th", keys, body);
    MarkupRowUnread(cell, Close("table"));
    assert ReadRows("td", body) == ([], body);
  }

  /** One empty record under the key `k`: a single row holding the
    * placeholder. */
  lemma MissingOnlyLayout(missing: string)
    ensures DictTableHtml([map[]], ["k"], missing) ==
      Open("table") + (Tr(Cells("th", ["k"])) + (Tr(Cells("td", [missing])) + Close("table")))
  {
    MissingOnlyCells(missing);
    MissingOnlyBody(missing);
    DictTableLayout([map[]], ["k"], missing);
  }

  lemma MissingOnlyCells(missing: string)
    ensures CellMatrix([map[]], ["k"], missing) == [[missing]]
  {
    var row := RecordCells(map[], ["k"], missing);
    assert |row| == 1 && row[0] == CellOf(map[], "k", missing);
    assert row == [missing];
  }

  lemma MissingOnlyBody(missing: string)
    ensures Concat(Rows("td", [[missing]])) == Tr(Cells("td", [missing]))
  {
    var cells := [[missing]];
    RowsCons("td", cells);
    assert Rows("td", cells[1..]) == [];
    assert Concat(Rows("td", cells)) == Tr(Cells("td", [missing])) + [];
  }

  /** The default placeholder is such markup, so a `DictTable` that needs it
    * does not read back: one empty record under the key `k` renders a table
    * whose body row is not a row of plain cells. */
  lemma DefaultMissingUnread()
    ensures ReadDictTable(DictTableHtml([map[]], ["k"], DefaultMissing)) == None
  {
    MissingOnlyLayout(DefaultMissing);
    assert DefaultMissing[0] == '<' && DefaultMissing[1] == 'i';
    MarkupTableUnread(["k"], DefaultMissing);
  }

  // ---------------------------------------------------------------------
  // Escaped text and Dict

  /** The inverse of `escape_html`: the three entities become characters
    * again. */
  function Unescape(s: string): string
  {
    if s == [] then ""
    else if "&lt;" <= s then "<" + Unescape(s[4..])
    else if "&gt;" <= s then ">" + Unescape(s[4..])
    else if "&amp;" <= s then "&" + Unescape(s[5..])
    else [s[0]] + Unescape(s[1..])
  }

  /** Escaping loses nothing: unescaping gives the text back. */
  lemma {:induction false} UnescapeEscape(s: string)
    ensures Unescape(EscapeHtml(s)) == s
  {
    if s != [] {
      var e := EscapeChar(s[0]);
      var tail := EscapeHtml(s[1..]);
      assert EscapeHtml(s) == e + tail;
      UnescapeEscape(s[1..]);
      if s[0] == '<' {
        assert "&lt;" <= e + tail && (e + tail)[4..] == tail;
      } else if s[0] == '>' {
        assert (e + tail)[1] == 'g';
        assert "&gt;" <= e + tail && (e + tail)[4..] == tail;
      } else if s[0] == '&' {
        assert (e + tail)[1] == 'a';
        assert "&amp;" <= e + tail && (e + tail)[5..] == tail;
      } else {
        assert (e + tail)[0] == s[0] && (e + tail)[1..] == tail;
      }
      assert [s[0]] + s[1..] == s;
    }
  }

  /** One `key_value` span: the key and value, unescaped. */
  function ReadKeyValue(s: string): (r: Option<((string, string), string)>)
    ensures r.Some? ==> |r.value.1| < |s|
  {
    match StripPrefix(KeyValueOpen, s)
    case None => None
    case Some(s1) =>
      var (key, s2) := TextUntilTag(s1);
      match StripPrefix(KeyValueMid, s2)
      case None => None
      case Some(s3) =>
        var (value, s4) := TextUntilTag(s3);
        match StripPrefix(KeyValueClose, s4)
        case None => None
        case Some(s5) => Some(((Unescape(key), Unescape(value)), s5))
  }

  lemma ReadKeyValueOf(key: string, value: string, rest: string)
    ensures ReadKeyValue(KeyValue(key, value) + rest) == Some(((key, value), rest))
  {
    var ek, ev := EscapeHtml(key), EscapeHtml(value);
    Assoc6(KeyValueOpen, ek, KeyValueMid, ev, KeyValueClose, rest);
    StripPrefixConcat(KeyValueOpen, ek + (KeyValueMid + (ev + (KeyValueClose + rest))));
    TextUntilTagConcat(ek, KeyValueMid + (ev + (KeyValueClose + rest)));
    StripPrefixConcat(KeyValueMid, ev + (KeyValueClose + rest));
    TextUntilTagConcat(ev, KeyValueClose + rest);
    StripPrefixConcat(KeyValueClose, rest);
    UnescapeEscape(key);
    UnescapeEscape(value);
  }

  /** The first span, then a space and the others. */
  lemma JoinKeyValues(items: seq<(string, string)>)
    requires items != []
    ensures |items| == 1 ==> JoinWith(" ", KeyValues(items)) == KeyValue(items[0].0, items[0].1)
    ensures |items| > 1 ==>
      JoinWith(" ", KeyValues(items)) == KeyValue(items[0].0, items[0].1) + " " + JoinWith(" ", KeyValues(items[1..]))
  {
    KeyValuesCons(items);
    JoinCons(" ", KeyValue(items[0].0, items[0].1), KeyValues(items[1..]));
  }

  lemma KeyValuesCons(items: seq<(string, string)>)
    requires items != []
    ensures KeyValues(items) == [KeyValue(items[0].0, items[0].1)] + KeyValues(items[1..])
  {
  }

  /** Joining a first part with the others. */
  lemma JoinCons(sep: string, x: string, xs: seq<string>)
    ensures JoinWith(sep, [x] + xs) == if xs == [] then x else x + sep + JoinWith(sep, xs)
  {
    ConsTail(x, xs);
  }

  /** No span starts where a closing tag does. */
  lemma NoKeyValueAtClose(rest: string)
    requires "</" <= rest
    ensures ReadKeyValue(rest) == None
  {
    assert KeyValueOpen[1] == 's';
  }

  /** Spans separated by single spaces. */
  function ReadKeyValues(s: string): Option<(seq<(string, string)>, string)>
    decreases |s|
  {
    match ReadKeyValue(s)
    case None => None
    case Some((item, s1)) =>
      if " " <= s1 then
        match ReadKeyValues(s1[1..])
        case None => None
        case Some((items, s2)) => Some(([item] + items, s2))
      else Some(([item], s1))
  }

  lemma ReadKeyValuesLast(key: string, value: string, rest: string)
    requires !(" " <= rest)
    ensures ReadKeyValues(KeyValue(key, value) + rest) == Some(([(key, value)], rest))
  {
    ReadKeyValueOf(key, value, rest);
  }

  lemma ReadKeyValuesCons(item: (string, string), tail: string, items: seq<(string, string)>, rest: string)
    requires ReadKeyValues(tail) == Some((items, rest))
    ensures ReadKeyValues(KeyValue(item.0, item.1) + (" " + tail)) == Some(([item] + items, rest))
  {
    ReadKeyValueOf(item.0, item.1, " " + tail);
    assert (" " + tail)[1..] == tail;
  }

  /** The spans of several items, read one by one. */
  lemma {:induction false} ReadKeyValuesOf(items: seq<(string, string)>, rest: string)
    requires items != [] && !(" " <= rest)
    ensures ReadKeyValues(JoinWith(" ", KeyValues(items)) + rest) == Some((items, rest))
    decreases |items|
  {
    if |items| == 1 {
      JoinKeyValues(items);
      ReadKeyValuesLast(items[0].0, items[0].1, rest);
      assert [items[0]] == items;
    } else {
      ReadKeyValuesOf(items[1..], rest);
      ReadKeyValuesStep(items, rest);
    }
  }

  lemma ReadKeyValuesStep(items: seq<(string, string)>, rest: string)
    requires |items| > 1
    requires ReadKeyValues(JoinWith(" ", KeyValues(items[1..])) + rest) == Some((items[1..], rest))
    ensures ReadKeyValues(JoinWith(" ", KeyValues(items)) + rest) == Some((items, rest))
  {
    var first, others := KeyValue(items[0].0, items[0].1), JoinWith(" ", KeyValues(items[1..]));
    JoinKeyValues(items);
    Regroup(first, " ", others, rest);
    ReadKeyValuesCons(items[0], others + rest, items[1..], rest);
    HeadTail(items);
  }

  /** The items of a rendered `Dict`. */
  function ReadDict(s: string): Option<seq<(string, string)>>
  {
    match StripPrefix(Open("div"), s)
    case None => None
    case Some(s1) =>
      match ReadKeyValues(s1)
      case None => if s1 == Close("div") then Some([]) else None
      case Some((items, s2)) => if s2 == Close("div") then Some(items) else None
  }

  lemma DictLayout(items: seq<(string, string)>)
    ensures DictView(items).ReprHtml() == Open("div") + (JoinWith(" ", KeyValues(items)) + Close("div"))
  {
    assert DictView(items).ReprHtml() == Wrap("div", JoinWith(" ", KeyValues(items)));
    WrapWhole("div", JoinWith(" ", KeyValues(items)));
  }

  /** `Dict._repr_html_` loses nothing: every key and value, whatever
    * characters it holds, is read back in order. */
  lemma DictRoundTrip(items: seq<(string, string)>)
    ensures ReadDict(DictView(items).ReprHtml()) == Some(items)
  {
    var inner := JoinWith(" ", KeyValues(items));
    DictLayout(items);
    StripPrefixConcat(Open("div"), inner + Close("div"));
    CloseStartsClosing("div", []);
    if items == [] {
      NoKeyValueAtClose(Close("div"));
    } else {
      ReadKeyValuesOf(items, Close("div"));
    }
  }
}
