/** HTML snippets for notebook display: tag wrappers, escaping, and the
  * `_repr_html_` renderers of `Table`, `DictTable`, `String` and `Dict`. */
module Notebook {
  import opened Wrappers
  import opened Seqs

  // ---------------------------------------------------------------------
  // Tag wrappers

  /** `<tag>inner</tag>`. */
  function Wrap(tag: string, inner: string): (r: string)
    ensures |r| == |inner| + 2 * |tag| + 5
    ensures r[..|tag| + 2] == "<" + tag + ">"
    ensures r[|tag| + 2..|tag| + 2 + |inner|] == inner
    ensures r[|tag| + 2 + |inner|..] == "</" + tag + ">"
  {
    "<" + tag + ">" + inner + "</" + tag + ">"
  }

  /** `td(html)`. */
  function Td(html: string): (r: string)
    ensures |r| == |html| + 9
    ensures r[..4] == "<td>" && r[4..|r| - 5] == html && r[|r| - 5..] == "</td>"
  {
    Wrap("td", html)
  }

  /** `th(html)`. */
  function Th(html: string): (r: string)
    ensures |r| == |html| + 9
    ensures r[..4] == "<th>" && r[4..|r| - 5] == html && r[|r| - 5..] == "</th>"
  {
    Wrap("th", html)
  }

  /** `'<div>%s</div>' % html`, the frame of `Dict._repr_html_`. */
  function Div(html: string): (r: string)
    ensures |r| == |html| + 11
    ensures r[..5] == "<div>" && r[5..|r| - 6] == html && r[|r| - 6..] == "</div>"
  {
    Wrap("div", html)
  }

  /** `tr(tds)`: the cells side by side inside one row. */
  function Tr(tds: seq<string>): (r: string)
    ensures |r| == |Concat(tds)| + 9
    ensures r[..4] == "<tr>" && r[4..|r| - 5] == Concat(tds) && r[|r| - 5..] == "</tr>"
  {
    Wrap("tr", Concat(tds))
  }

  /** `table(trs)`: the rows one after the other inside a table. */
  function Table(trs: seq<string>): (r: string)
    ensures |r| == |Concat(trs)| + 15
    ensures r[..7] == "<table>" && r[7..|r| - 8] == Concat(trs) && r[|r| - 8..] == "</table>"
  {
    Wrap("table", Concat(trs))
  }

  /** Every item wrapped in the same tag: `(td(cell) for cell in row)`. */
  function Cells(tag: string, items: seq<string>): (r: seq<string>)
    ensures |r| == |items|
    ensures forall i :: 0 <= i < |items| ==> r[i] == Wrap(tag, items[i])
  {
    if items == [] then [] else [Wrap(tag, items[0])] + Cells(tag, items[1..])
  }

  // ---------------------------------------------------------------------
  // escape_html

  /** The translation table: `<`, `>` and `&` become entities. */
  function EscapeChar(c: char): (r: string)
    ensures '<' !in r && '>' !in r
    ensures c != '<' && c != '>' && c != '&' ==> r == [c]
  {
    if c == '<' then "&lt;"
    else if c == '>' then "&gt;"
    else if c == '&' then "&amp;"
    else [c]
  }

  /** `escape_html(string)`: every character translated on its own. */
  function EscapeHtml(s: string): (r: string)
    ensures '<' !in r && '>' !in r
    ensures (forall i :: 0 <= i < |s| ==> s[i] != '<' && s[i] != '>' && s[i] != '&') ==> r == s
    ensures |r| >= |s|
  {
    if s == [] then "" else EscapeChar(s[0]) + EscapeHtml(s[1..])
  }

  /** Escaping works character by character, so it distributes over
    * concatenation. */
  lemma {:induction false} EscapeHtmlConcat(a: string, b: string)
    ensures EscapeHtml(a + b) == EscapeHtml(a) + EscapeHtml(b)
  {
    if a == [] {
      assert a + b == b;
    } else {
      assert (a + b)[0] == a[0] && (a + b)[1..] == a[1..] + b;
      EscapeHtmlConcat(a[1..], b);
    }
  }

  // ---------------------------------------------------------------------
  // key_value and the display classes

  const KeyValueOpen: string := "<span style=\"padding-right: 10px\"><b>"
  const KeyValueMid: string := "</b>&rarr;"
  const KeyValueClose: string := "</span>"

  /** `key_value(key, value)`: an escaped key, an arrow, an escaped value. */
  function KeyValue(key: string, value: string): (r: string)
    ensures |r| == |KeyValueOpen| + |EscapeHtml(key)| + |KeyValueMid| + |EscapeHtml(value)| + |KeyValueClose|
    ensures var k, m := |KeyValueOpen| + |EscapeHtml(key)|, |r| - |KeyValueClose| - |EscapeHtml(value)|;
      && r[..|KeyValueOpen|] == KeyValueOpen
      && r[|KeyValueOpen|..k] == EscapeHtml(key)
      && r[k..m] == KeyValueMid
      && r[m..|r| - |KeyValueClose|] == EscapeHtml(value)
      && r[|r| - |KeyValueClose|..] == KeyValueClose
  {
    var ek, ev := EscapeHtml(key), EscapeHtml(value);
    FiveParts(KeyValueOpen, ek, KeyValueMid, ev, KeyValueClose);
    KeyValueOpen + ek + KeyValueMid + ev + KeyValueClose
  }

  /** Where each of five parts sits in their concatenation. */
  lemma FiveParts<T>(a: seq<T>, b: seq<T>, c: seq<T>, d: seq<T>, e: seq<T>)
    ensures var r := a + b + c + d + e;
      var k, m := |a| + |b|, |r| - |e| - |d|;
      && |r| == |a| + |b| + |c| + |d| + |e|
      && r[..|a|] == a && r[|a|..k] == b && r[k..m] == c
      && r[m..|r| - |e|] == d && r[|r| - |e|..] == e
  {
  }

  /** `sep.join(parts)`. */
  function JoinWith(sep: string, parts: seq<string>): string
  {
    if parts == [] then ""
    else if |parts| == 1 then parts[0]
    else parts[0] + sep + JoinWith(sep, parts[1..])
  }

  /** One `key_value` span per item, in order. */
  function KeyValues(items: seq<(string, string)>): (r: seq<string>)
    ensures |r| == |items|
    ensures forall i :: 0 <= i < |items| ==> r[i] == KeyValue(items[i].0, items[i].1)
  {
    if items == [] then [] else [KeyValue(items[0].0, items[0].1)] + KeyValues(items[1..])
  }

  /** `Table(rows)`: rows of unescaped strings. */
  datatype TableView = TableView(rows: seq<seq<string>>)
  {
    /** `Table._repr_html_`: one `tr` per row, one `td` per cell. */
    function ReprHtml(): (r: string)
      ensures |r| == |Concat(Rows("td", rows))| + 15
      ensures r[..7] == "<table>" && r[|r| - 8..] == "</table>"
      ensures r[7..|r| - 8] == Concat(Rows("td", rows))
    {
      Table(Rows("td", rows))
    }
  }

  /** One `tr` of `tag` cells per row. */
  function Rows(tag: string, rows: seq<seq<string>>): (r: seq<string>)
    ensures |r| == |rows|
    ensures forall i :: 0 <= i < |rows| ==> r[i] == Tr(Cells(tag, rows[i]))
  {
    if rows == [] then [] else [Tr(Cells(tag, rows[0]))] + Rows(tag, rows[1..])
  }

  /** `String(string)`. */
  datatype StringView = StringView(text: string)
  {
    /** `String._repr_html_`: the escaped text. */
    function ReprHtml(): (r: string)
      ensures '<' !in r && '>' !in r
      ensures (forall i :: 0 <= i < |text| ==> text[i] != '<' && text[i] != '>' && text[i] != '&') ==> r == text
    {
      EscapeHtml(text)
    }
  }

  /** `Dict(mapping)`: the `(key, value)` items, in the order given. */
  datatype DictView = DictView(items: seq<(string, string)>)
  {
    /** `Dict._repr_html_`: the spans joined by single spaces in a `div`. */
    function ReprHtml(): (r: string)
      ensures |r| == |JoinWith(" ", KeyValues(items))| + 11
      ensures r[..5] == "<div>" && r[|r| - 6..] == "</div>"
      ensures r[5..|r| - 6] == JoinWith(" ", KeyValues(items))
    {
      Div(JoinWith(" ", KeyValues(items)))
    }
  }

  // ---------------------------------------------------------------------
  // DictTable

  /** The default placeholder for a missing cell. */
  const DefaultMissing: string := "<i style=\"color: #AAA\">NA</i>"

  /** `record.get(key, missing)`. */
  function CellOf(record: map<string, string>, key: string, missing: string): string
  {
    if key in record then record[key] else missing
  }

  /** The cells of one record under the given keys. */
  function RecordCells(record: map<string, string>, keys: seq<string>, missing: string): (r: seq<string>)
    ensures |r| == |keys|
    ensures forall j :: 0 <= j < |keys| ==> r[j] == CellOf(record, keys[j], missing)
  {
    if keys == [] then [] else [CellOf(record, keys[0], missing)] + RecordCells(record, keys[1..], missing)
  }

  /** The cells of every record, one row per record. */
  function CellMatrix(records: seq<map<string, string>>, keys: seq<string>, missing: string): (r: seq<seq<string>>)
    ensures |r| == |records|
    ensures forall i :: 0 <= i < |records| ==> r[i] == RecordCells(records[i], keys, missing)
  {
    if records == [] then []
    else [RecordCells(records[0], keys, missing)] + CellMatrix(records[1..], keys, missing)
  }

  /** The HTML of a `DictTable` once its keys are fixed: a header row of
    * `th` keys, then one row of `td` cells per record. */
  function DictTableHtml(records: seq<map<string, string>>, keys: seq<string>, missing: string): (r: string)
    ensures |r| == |Tr(Cells("th", keys)) + Concat(Rows("td", CellMatrix(records, keys, missing)))| + 15
    ensures r[..7] == "<table>" && r[|r| - 8..] == "</table>"
    ensures r[7..|r| - 8] == Tr(Cells("th", keys)) + Concat(Rows("td", CellMatrix(records, keys, missing)))
  {
    var header, body := Tr(Cells("th", keys)), Rows("td", CellMatrix(records, keys, missing));
    TableCons(header, body);
    Table([header] + body)
  }

  /** A table whose first row is `header`. */
  lemma TableCons(header: string, body: seq<string>)
    ensures var r := Table([header] + body);
      && |r| == |header + Concat(body)| + 15
      && r[..7] == "<table>" && r[|r| - 8..] == "</table>"
      && r[7..|r| - 8] == header + Concat(body)
  {
    ConcatCons(header, body);
  }

  /** Every key of every record. */
  function AllKeys(records: seq<map<string, string>>): set<string>
  {
    set r, k | r in records && k in r :: k
  }

  predicate Distinct(xs: seq<string>)
  {
    forall i, j :: 0 <= i < j < |xs| ==> xs[i] != xs[j]
  }

  /** Iterating over a set: each element once, in an order left open. */
  method SetElements(s: set<string>) returns (xs: seq<string>)
    ensures Distinct(xs)
    ensures (set x | x in xs) == s
    ensures |xs| == |s|
  {
    xs := [];
    var rest := s;
    while rest != {}
      invariant Distinct(xs)
      invariant (set x | x in xs) !! rest
      invariant (set x | x in xs) + rest == s
      invariant |xs| + |rest| == |s|
      decreases |rest|
    {
      var x := Pop(rest);
      xs := xs + [x];
      rest := rest - {x};
    }
  }

  /** `DictTable(records, keys, missing)`: `keys` stays None until the
    * first render fixes it. */
  class DictTable {
    var records: seq<map<string, string>>
    var keys: Option<seq<string>>
    var missing: string

    constructor (records: seq<map<string, string>>, keys: Option<seq<string>>, missing: string)
      ensures this.records == records && this.keys == keys && this.missing == missing
    {
      this.records := records;
      this.keys := keys;
      this.missing := missing;
    }

    /** `_repr_html_`: with no keys yet, take every key of every record
      * once, keep them, and render with them; later renders reuse them. */
    method ReprHtml() returns (html: string)
      modifies this
      ensures records == old(records) && missing == old(missing)
      ensures old(keys).Some? ==> keys == old(keys)
      ensures old(keys).None? ==>
        keys.Some? && Distinct(keys.value) && (set k | k in keys.value) == AllKeys(records)
      ensures keys.Some? && html == DictTableHtml(records, keys.value, missing)
    {
      if keys.None? {
        var ks := SetElements(AllKeys(records));
        keys := Some(ks);
      }
      html := DictTableHtml(records, keys.value, missing);
    }
  }

  /** Rendering twice gives the same HTML: the keys fixed by the first
    * render are kept. */
  method RenderTwice(t: DictTable) returns (first: string, second: string)
    modifies t
    ensures first == second
    ensures t.records == old(t.records)
  {
    first := t.ReprHtml();
    second := t.ReprHtml();
  }
}
