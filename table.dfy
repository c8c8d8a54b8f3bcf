/**
  The `Table` keywords of the browser-testing library: each keyword turns a
  table locator, an optional row or column number and the expected text into
  a CSS selector and a failure message, asks the host to assert that an
  element matching the selector is on the page, and reports pass or fail.
  The cell keywords instead read one cell's text through the host.

  The host's capabilities are parameters (`Host`); exceptions are `Outcome`
  and `Result` values. Every checking keyword returns a `Run`: its outcome,
  the queries it made, in order, and the lines it logged. `GetTableCell`
  returns a `Read`: the value read, or the host's error, and its one query.
 */
module Table {
  import opened Wrappers
  import opened Text

  /** What the host can raise. Only `AssertionError` is caught by the
      column keyword; the cell keyword catches every kind. */
  datatype Error = AssertionError(message: string) | OtherError(name: string, message: string)

  /** The capabilities the keywords use and do not define:
      asserting that the page holds an element matching a locator (with a
      kind and a failure message), reading one table cell by its
      "locator.row.column" path, and extracting the reason text of an error. */
  datatype Host = Host(
    pageShouldContainElement: (string, string, string) -> Outcome<Error>,
    getTable: string -> Result<string, Error>,
    errorMessage: Error -> string)

  /** One call into the host. */
  datatype Query =
    | ElementQuery(locator: string, kind: string, message: string)
    | CellQuery(path: string)

  /** What a checking keyword did: its outcome, the host queries it made in
      order, and what it logged through the info sink. */
  datatype Run = Run(outcome: Outcome<Error>, queries: seq<Query>, log: seq<string>)

  /** What a cell read did: the text read (or the host's error), and the query. */
  datatype Read = Read(value: Result<string, Error>, queries: seq<Query>)

  /** A 1-based row or column number, as callers give it. */
  type Ordinal = n: nat | 1 <= n witness 1

  /** The prefix that marks a locator as a ready-made CSS selector. */
  const CssPrefix := "css="

  /** The default selector for a plain identifier: the table with that id. */
  const TableById := "css=table#"

  /** The element kind every keyword passes to the host. */
  const ElementKind := "element"

  /** The phrase whose presence in a failure reason makes the column keyword
      retry against header cells; every message below contains it. */
  const ContentNotFound := "should have contained text"

  // ---------------------------------------------------------------------
  // Locator normalisation

  /** A locator that already starts with `css=` is kept as it is; any other
      string is taken as a table id. */
  function GetLocator(tableLocator: string): (r: string)
    ensures StartsWith(r, CssPrefix)
    ensures r == tableLocator <==> StartsWith(tableLocator, CssPrefix)
    ensures !StartsWith(tableLocator, CssPrefix) ==>
      StartsWith(r, TableById) && r[|TableById|..] == tableLocator
  {
    if StartsWith(tableLocator, CssPrefix) then tableLocator else TableById + tableLocator
  }

  /** Normalising twice is normalising once. */
  lemma GetLocatorIdempotent(tableLocator: string)
    ensures GetLocator(GetLocator(tableLocator)) == GetLocator(tableLocator)
  {
  }

  // ---------------------------------------------------------------------
  // Selectors

  /** The part of a table a selector is restricted to. */
  datatype Section =
    | WholeTable
    | Header
    | Footer
    | Row(row: Ordinal)
    | DataColumn(col: Ordinal)
    | HeaderColumn(col: Ordinal)

  /** The structural suffix placed after the normalised locator. */
  function Suffix(s: Section): (r: string) {
    match s
    case WholeTable => ""
    case Header => " th"
    case Footer => " tfoot td"
    case Row(n) => " tr:nth-child(" + Decimal(n) + ")"
    case DataColumn(n) => " tr td:nth-child(" + Decimal(n) + ")"
    case HeaderColumn(n) => " tr th:nth-child(" + Decimal(n) + ")"
  }

  /** The content filter every selector ends in; no quoting is applied. */
  function ContentFilter(expected: string): (r: string) {
    ":contains('" + expected + "')"
  }

  /** A selector a keyword builds: the normalised locator, a structural
      suffix and the content filter; in particular it starts with `css=`. */
  function Selector(tableLocator: string, s: Section, expected: string): (r: string)
    ensures var n := |GetLocator(tableLocator)|;
      && |r| == n + |Suffix(s)| + |ContentFilter(expected)|
      && StartsWith(r, CssPrefix)
      && StartsWith(r, GetLocator(tableLocator))
      && r[n..|r| - |ContentFilter(expected)|] == Suffix(s)
      && r[|r| - |ContentFilter(expected)|..] == ContentFilter(expected)
  {
    var loc := GetLocator(tableLocator);
    var sel := loc + Suffix(s) + ContentFilter(expected);
    assert sel[..|loc|] == loc;
    assert sel[..|CssPrefix|] == loc[..|CssPrefix|];
    sel
  }

  /** Which kind of section a suffix belongs to can be read off its first
      characters. */
  lemma SuffixTag(s: Section)
    ensures s.WholeTable? <==> |Suffix(s)| == 0
    ensures s.Header? <==> |Suffix(s)| >= 3 && Suffix(s)[2] == 'h'
    ensures s.Footer? <==> |Suffix(s)| >= 3 && Suffix(s)[2] == 'f'
    ensures s.Row? <==> |Suffix(s)| >= 6 && Suffix(s)[2] == 'r' && Suffix(s)[3] == ':'
    ensures s.DataColumn? <==>
      |Suffix(s)| >= 6 && Suffix(s)[2] == 'r' && Suffix(s)[3] == ' ' && Suffix(s)[5] == 'd'
    ensures s.HeaderColumn? <==>
      |Suffix(s)| >= 6 && Suffix(s)[2] == 'r' && Suffix(s)[3] == ' ' && Suffix(s)[5] == 'h'
  {
  }

  /** Equal glue around two strings means the strings are equal. */
  lemma Unwrap(prefix: string, a: string, b: string, suffix: string)
    requires prefix + a + suffix == prefix + b + suffix
    ensures a == b
  {
    CancelRight(prefix + a, prefix + b, suffix);
    CancelLeft(prefix, a, b);
  }

  /** Distinct sections have distinct suffixes. */
  lemma SuffixInjective(s1: Section, s2: Section)
    requires Suffix(s1) == Suffix(s2)
    ensures s1 == s2
  {
    SuffixTag(s1);
    SuffixTag(s2);
    match s1
    case Row(n) =>
      Unwrap(" tr:nth-child(", Decimal(n), Decimal(s2.row), ")");
      DecimalInjective(n, s2.row);
    case DataColumn(n) =>
      Unwrap(" tr td:nth-child(", Decimal(n), Decimal(s2.col), ")");
      DecimalInjective(n, s2.col);
    case HeaderColumn(n) =>
      Unwrap(" tr th:nth-child(", Decimal(n), Decimal(s2.col), ")");
      DecimalInjective(n, s2.col);
    case _ =>
  }

  /** With the table and the expected text fixed, the selector tells the
      sections apart: in particular the header-cell retry of a column check
      is a different query from the data-cell attempt. */
  lemma SelectorDeterminesSection(tableLocator: string, expected: string, s1: Section, s2: Section)
    requires Selector(tableLocator, s1, expected) == Selector(tableLocator, s2, expected)
    ensures s1 == s2
  {
    Unwrap(GetLocator(tableLocator), Suffix(s1), Suffix(s2), ContentFilter(expected));
    SuffixInjective(s1, s2);
  }

  /** With the table and section fixed, the selector determines the expected text. */
  lemma SelectorDeterminesExpected(tableLocator: string, s: Section, e1: string, e2: string)
    requires Selector(tableLocator, s, e1) == Selector(tableLocator, s, e2)
    ensures e1 == e2
  {
    CancelLeft(GetLocator(tableLocator) + Suffix(s), ContentFilter(e1), ContentFilter(e2));
    Unwrap(":contains('", e1, e2, "')");
  }

  /** A caller may pass a locator in either form: the selector is the same. */
  lemma SelectorOfNormalised(tableLocator: string, s: Section, expected: string)
    ensures Selector(GetLocator(tableLocator), s, expected) == Selector(tableLocator, s, expected)
  {
    GetLocatorIdempotent(tableLocator);
  }

  /** The expected text is not escaped: a quote in it ends the filter early,
      so a whole-table check and a header check of another locator can build
      one and the same selector. */
  lemma SelectorNotEscaped(raw: string, a: string, b: string)
    requires StartsWith(raw, CssPrefix)
    ensures Selector(raw, WholeTable, a + "')" + Suffix(Header) + ":contains('" + b)
         == Selector(raw + ContentFilter(a), Header, b)
  {
    var longer := raw + ContentFilter(a);
    assert longer[..|CssPrefix|] == raw[..|CssPrefix|];
    assert GetLocator(longer) == longer;
    Regroup(raw, ":contains('", a, "')", Suffix(Header), b);
  }

  /** Regrouping the pieces of two glued selectors. */
  lemma Regroup(r: string, open: string, a: string, close: string, h: string, b: string)
    ensures r + [] + (open + (a + close + h + open + b) + close)
         == (r + (open + a + close)) + h + (open + b + close)
  {
  }

  // ---------------------------------------------------------------------
  // Failure messages

  /** Who the failure message of a section keyword is about. */
  datatype Subject =
    | TableSubject
    | HeaderSubject
    | FooterSubject
    | RowSubject(row: Ordinal)
    | ColumnSubject(col: Ordinal)

  /** The message up to the caller's locator. */
  function Lead(s: Subject): (r: string) {
    match s
    case TableSubject => "Table identified by '"
    case HeaderSubject => "Header in table identified by '"
    case FooterSubject => "Footer in table identified by '"
    case RowSubject(n) => "Row #" + Decimal(n) + " in table identified by '"
    case ColumnSubject(n) => "Column #" + Decimal(n) + " in table identified by '"
  }

  /** A row or column lead names its number; the kinds of lead differ in
      their first character. */
  lemma LeadNames(s: Subject)
    ensures s.RowSubject? ==> Contains(Lead(s), Decimal(s.row))
    ensures s.ColumnSubject? ==> Contains(Lead(s), Decimal(s.col))
    ensures Lead(s)[0] == match s
      case TableSubject => 'T'
      case HeaderSubject => 'H'
      case FooterSubject => 'F'
      case RowSubject(_) => 'R'
      case ColumnSubject(_) => 'C'
  {
    match s
    case RowSubject(n) =>
      ContainsAtEnd("Row #", Decimal(n));
      ContainsExtendRight("Row #" + Decimal(n), Decimal(n), " in table identified by '");
    case ColumnSubject(n) =>
      ContainsAtEnd("Column #", Decimal(n));
      ContainsExtendRight("Column #" + Decimal(n), Decimal(n), " in table identified by '");
    case _ =>
  }

  /** The message after the caller's locator. */
  function Tail(expected: string): (r: string)
    ensures Contains(r, ContentNotFound) && Contains(r, expected)
  {
    ContainsAtEnd("' ", ContentNotFound);
    ContainsExtendRight("' " + ContentNotFound, ContentNotFound, " '");
    ContainsExtendRight("' " + ContentNotFound + " '", ContentNotFound, expected);
    ContainsExtendRight("' " + ContentNotFound + " '" + expected, ContentNotFound, "'.");
    ContainsAtEnd("' " + ContentNotFound + " '", expected);
    ContainsExtendRight("' " + ContentNotFound + " '" + expected, expected, "'.");
    "' " + ContentNotFound + " '" + expected + "'."
  }

  /** The failure message of a section keyword. It names the locator exactly
      as the caller gave it, the expected text, the content-not-found phrase
      and, for a row or a column, its number. */
  function Message(s: Subject, tableLocator: string, expected: string): (r: string)
    ensures Contains(r, ContentNotFound) && Contains(r, tableLocator) && Contains(r, expected)
    ensures s.RowSubject? ==> Contains(r, Decimal(s.row))
    ensures s.ColumnSubject? ==> Contains(r, Decimal(s.col))
  {
    var lead := Lead(s);
    var tail := Tail(expected);
    LeadNames(s);
    ContainsAtEnd(lead, tableLocator);
    ContainsExtendRight(lead + tableLocator, tableLocator, tail);
    ContainsExtendLeft(lead + tableLocator, tail, ContentNotFound);
    ContainsExtendLeft(lead + tableLocator, tail, expected);
    var m := lead + tableLocator + tail;
    if s.RowSubject? then
      ContainsExtendRight2(lead, Decimal(s.row), tableLocator, tail);
      m
    else if s.ColumnSubject? then
      ContainsExtendRight2(lead, Decimal(s.col), tableLocator, tail);
      m
    else
      m
  }

  /** The cell message after the caller's locator. */
  function CellTail(row: Ordinal, col: Ordinal, expected: string): (r: string) {
    "' in row #" + Decimal(row) + " and column #" + Decimal(col) + " " + ContentNotFound + " '" + expected + "'."
  }

  /** The cell message after the caller's locator names the row, the column,
      the content-not-found phrase and the expected text. */
  lemma CellTailContents(row: Ordinal, col: Ordinal, expected: string)
    ensures var t := CellTail(row, col, expected);
      && Contains(t, ContentNotFound) && Contains(t, expected)
      && Contains(t, Decimal(row)) && Contains(t, Decimal(col))
  {
    var p1 := "' in row #";
    var p2 := p1 + Decimal(row) + " and column #";
    var p3 := p2 + Decimal(col) + " ";
    var p4 := p3 + ContentNotFound + " '";
    var p5 := p4 + expected;
    ContainsAtEnd(p1, Decimal(row));
    ContainsExtendRight(p1 + Decimal(row), Decimal(row), " and column #");
    ContainsExtendRight(p2, Decimal(row), Decimal(col));
    ContainsAtEnd(p2, Decimal(col));
    ContainsExtendRight(p2 + Decimal(col), Decimal(row), " ");
    ContainsExtendRight(p2 + Decimal(col), Decimal(col), " ");
    ContainsExtendRight(p3, Decimal(row), ContentNotFound);
    ContainsExtendRight(p3, Decimal(col), ContentNotFound);
    ContainsAtEnd(p3, ContentNotFound);
    ContainsExtendRight(p3 + ContentNotFound, Decimal(row), " '");
    ContainsExtendRight(p3 + ContentNotFound, Decimal(col), " '");
    ContainsExtendRight(p3 + ContentNotFound, ContentNotFound, " '");
    ContainsExtendRight(p4, Decimal(row), expected);
    ContainsExtendRight(p4, Decimal(col), expected);
    ContainsExtendRight(p4, ContentNotFound, expected);
    ContainsAtEnd(p4, expected);
    ContainsExtendRight(p5, Decimal(row), "'.");
    ContainsExtendRight(p5, Decimal(col), "'.");
    ContainsExtendRight(p5, ContentNotFound, "'.");
    ContainsExtendRight(p5, expected, "'.");
    assert CellTail(row, col, expected) == p5 + "'.";
  }

  /** The failure message of the cell keyword. It names the caller's locator,
      the 1-based row and column, the expected text and the
      content-not-found phrase. */
  function CellMessage(tableLocator: string, row: Ordinal, col: Ordinal, expected: string): (r: string)
    ensures && Contains(r, ContentNotFound) && Contains(r, tableLocator) && Contains(r, expected)
            && Contains(r, Decimal(row)) && Contains(r, Decimal(col))
  {
    var lead := "Cell in table '";
    var tail := CellTail(row, col, expected);
    CellTailContents(row, col, expected);
    ContainsAtEnd(lead, tableLocator);
    ContainsExtendRight(lead + tableLocator, tableLocator, tail);
    ContainsExtendLeft(lead + tableLocator, tail, Decimal(row));
    ContainsExtendLeft(lead + tableLocator, tail, Decimal(col));
    ContainsExtendLeft(lead + tableLocator, tail, ContentNotFound);
    ContainsExtendLeft(lead + tableLocator, tail, expected);
    lead + tableLocator + tail
  }

  /** With the subject and expected text fixed, the message determines the
      locator the caller gave. */
  lemma MessageDeterminesLocator(s: Subject, l1: string, l2: string, expected: string)
    requires Message(s, l1, expected) == Message(s, l2, expected)
    ensures l1 == l2
  {
    Unwrap(Lead(s), l1, l2, Tail(expected));
  }

  /** Distinct subjects lead their messages differently. */
  lemma LeadInjective(s1: Subject, s2: Subject)
    requires Lead(s1) == Lead(s2)
    ensures s1 == s2
  {
    LeadNames(s1);
    LeadNames(s2);
    match s1
    case RowSubject(n) =>
      Unwrap("Row #", Decimal(n), Decimal(s2.row), " in table identified by '");
      DecimalInjective(n, s2.row);
    case ColumnSubject(n) =>
      Unwrap("Column #", Decimal(n), Decimal(s2.col), " in table identified by '");
      DecimalInjective(n, s2.col);
    case _ =>
  }

  /** With the locator and expected text fixed, the message determines its
      subject, row and column numbers included. */
  lemma MessageDeterminesSubject(s1: Subject, s2: Subject, tableLocator: string, expected: string)
    requires Message(s1, tableLocator, expected) == Message(s2, tableLocator, expected)
    ensures s1 == s2
  {
    CancelRight2(Lead(s1), Lead(s2), tableLocator, Tail(expected));
    LeadInjective(s1, s2);
  }

  /** The message carries the original locator, not the normalised one: for
      a plain id the two messages differ. */
  lemma MessageNotNormalised(s: Subject, tableLocator: string, expected: string)
    requires !StartsWith(tableLocator, CssPrefix)
    ensures Message(s, tableLocator, expected) != Message(s, GetLocator(tableLocator), expected)
  {
    if Message(s, tableLocator, expected) == Message(s, GetLocator(tableLocator), expected) {
      MessageDeterminesLocator(s, tableLocator, GetLocator(tableLocator), expected);
    }
  }

  /** Likewise for the cell message. */
  lemma CellMessageNotNormalised(tableLocator: string, row: Ordinal, col: Ordinal, expected: string)
    requires !StartsWith(tableLocator, CssPrefix)
    ensures CellMessage(tableLocator, row, col, expected)
         != CellMessage(GetLocator(tableLocator), row, col, expected)
  {
    if CellMessage(tableLocator, row, col, expected) == CellMessage(GetLocator(tableLocator), row, col, expected) {
      Unwrap("Cell in table '", tableLocator, GetLocator(tableLocator), CellTail(row, col, expected));
    }
  }

  // ---------------------------------------------------------------------
  // The keywords

  /** One call of the host's "page should contain element" assertion. */
  function Check(host: Host, locator: string, message: string): (r: Run)
    ensures r.queries == [ElementQuery(locator, ElementKind, message)] && r.log == []
    ensures r.outcome == host.pageShouldContainElement(locator, ElementKind, message)
  {
    Run(host.pageShouldContainElement(locator, ElementKind, message),
        [ElementQuery(locator, ElementKind, message)], [])
  }

  /** `table_should_contain`: one query, on the whole table. */
  function TableShouldContain(host: Host, tableLocator: string, expected: string): (r: Run)
    ensures var sel, msg := Selector(tableLocator, WholeTable, expected), Message(TableSubject, tableLocator, expected);
      && r.queries == [ElementQuery(sel, ElementKind, msg)]
      && r.outcome == host.pageShouldContainElement(sel, ElementKind, msg)
      && r.log == []
  {
    Check(host, Selector(tableLocator, WholeTable, expected), Message(TableSubject, tableLocator, expected))
  }

  /** `table_header_should_contain`: one query, on the `th` cells. */
  function TableHeaderShouldContain(host: Host, tableLocator: string, expected: string): (r: Run)
    ensures var sel, msg := Selector(tableLocator, Header, expected), Message(HeaderSubject, tableLocator, expected);
      && r.queries == [ElementQuery(sel, ElementKind, msg)]
      && r.outcome == host.pageShouldContainElement(sel, ElementKind, msg)
      && r.log == []
  {
    Check(host, Selector(tableLocator, Header, expected), Message(HeaderSubject, tableLocator, expected))
  }

  /** `table_footer_should_contain`: one query, on the `td` cells of `tfoot`. */
  function TableFooterShouldContain(host: Host, tableLocator: string, expected: string): (r: Run)
    ensures var sel, msg := Selector(tableLocator, Footer, expected), Message(FooterSubject, tableLocator, expected);
      && r.queries == [ElementQuery(sel, ElementKind, msg)]
      && r.outcome == host.pageShouldContainElement(sel, ElementKind, msg)
      && r.log == []
  {
    Check(host, Selector(tableLocator, Footer, expected), Message(FooterSubject, tableLocator, expected))
  }

  /** `table_row_should_contain`: one query, on the `row`-th `tr`. */
  function TableRowShouldContain(host: Host, tableLocator: string, row: Ordinal, expected: string): (r: Run)
    ensures var sel, msg := Selector(tableLocator, Row(row), expected), Message(RowSubject(row), tableLocator, expected);
      && r.queries == [ElementQuery(sel, ElementKind, msg)]
      && r.outcome == host.pageShouldContainElement(sel, ElementKind, msg)
      && r.log == []
  {
    Check(host, Selector(tableLocator, Row(row), expected), Message(RowSubject(row), tableLocator, expected))
  }

  /** The failures after which the column keyword retries on header cells:
      an assertion failure whose reason holds the content-not-found phrase. */
  function TriggersFallback(host: Host, err: Error): (r: bool)
    ensures r <==> err.AssertionError? && exists i :: OccursAt(host.errorMessage(err), ContentNotFound, i)
  {
    err.AssertionError? && Contains(host.errorMessage(err), ContentNotFound)
  }

  /** `table_column_should_contain`: the `col`-th `td` of each row first;
      only when that fails with a content-not-found assertion failure, the
      `col`-th `th` of each row, with the same message. */
  function TableColumnShouldContain(host: Host, tableLocator: string, col: Ordinal, expected: string): (r: Run)
    ensures var msg := Message(ColumnSubject(col), tableLocator, expected);
      var td := ElementQuery(Selector(tableLocator, DataColumn(col), expected), ElementKind, msg);
      var th := ElementQuery(Selector(tableLocator, HeaderColumn(col), expected), ElementKind, msg);
      var first := host.pageShouldContainElement(td.locator, td.kind, td.message);
      && r.log == []
      && (first.Pass? ==> r.queries == [td] && r.outcome == Pass)
      && (first.Fail? && !TriggersFallback(host, first.error) ==> r.queries == [td] && r.outcome == first)
      && (first.Fail? && TriggersFallback(host, first.error) ==>
            r.queries == [td, th] && r.outcome == host.pageShouldContainElement(th.locator, th.kind, th.message))
  {
    var message := Message(ColumnSubject(col), tableLocator, expected);
    var first := Check(host, Selector(tableLocator, DataColumn(col), expected), message);
    match first.outcome
    case Pass => first
    case Fail(err) =>
      if !TriggersFallback(host, err) then
        first
      else
        var retry := Check(host, Selector(tableLocator, HeaderColumn(col), expected), message);
        Run(retry.outcome, first.queries + retry.queries, first.log + retry.log)
  }

  /** The column keyword makes one or two queries, the first always on data
      cells; a second is a distinct query on header cells of the same column
      with the same expected text and message. */
  lemma ColumnQueries(host: Host, tableLocator: string, col: Ordinal, expected: string)
    ensures var r := TableColumnShouldContain(host, tableLocator, col, expected);
      var msg := Message(ColumnSubject(col), tableLocator, expected);
      && 1 <= |r.queries| <= 2
      && r.queries[0] == ElementQuery(Selector(tableLocator, DataColumn(col), expected), ElementKind, msg)
      && (|r.queries| == 2 ==>
            && r.queries[1] == ElementQuery(Selector(tableLocator, HeaderColumn(col), expected), ElementKind, msg)
            && r.queries[1] != r.queries[0])
  {
    if Selector(tableLocator, DataColumn(col), expected) == Selector(tableLocator, HeaderColumn(col), expected) {
      SelectorDeterminesSection(tableLocator, expected, DataColumn(col), HeaderColumn(col));
    }
  }

  /** The column keyword passes exactly when the data-cell query passes, or
      it fails with a content-not-found assertion failure and the header-cell
      query passes. */
  lemma ColumnPassesIff(host: Host, tableLocator: string, col: Ordinal, expected: string)
    ensures var msg := Message(ColumnSubject(col), tableLocator, expected);
      var first := host.pageShouldContainElement(Selector(tableLocator, DataColumn(col), expected), ElementKind, msg);
      var retry := host.pageShouldContainElement(Selector(tableLocator, HeaderColumn(col), expected), ElementKind, msg);
      TableColumnShouldContain(host, tableLocator, col, expected).outcome.Pass?
      <==> first.Pass? || (TriggersFallback(host, first.error) && retry.Pass?)
  {
  }

  /** When the host fails the data-cell query with an assertion carrying the
      keyword's own message, and reports that message as the reason, the
      header-cell retry is always made, since every message holds the phrase,
      and the retry decides the outcome. */
  lemma ColumnRetriesOnOwnMessage(host: Host, tableLocator: string, col: Ordinal, expected: string)
    requires var msg := Message(ColumnSubject(col), tableLocator, expected);
      && host.pageShouldContainElement(Selector(tableLocator, DataColumn(col), expected), ElementKind, msg)
         == Fail(AssertionError(msg))
      && host.errorMessage(AssertionError(msg)) == msg
    ensures var msg := Message(ColumnSubject(col), tableLocator, expected);
      var r := TableColumnShouldContain(host, tableLocator, col, expected);
      && |r.queries| == 2
      && r.outcome == host.pageShouldContainElement(Selector(tableLocator, HeaderColumn(col), expected), ElementKind, msg)
  {
  }

  /** The decoded form of a cell path. */
  datatype CellAddress = CellAddress(table: string, row: nat, col: nat)

  /** Reads a "locator.row.column" path: the last two dot-separated fields
      must be non-empty runs of digits; the locator may itself hold dots. */
  function ParseCellPath(path: string): (r: Option<CellAddress>) {
    match SplitLast(path, '.')
    case None => None
    case Some((front, colText)) =>
      match SplitLast(front, '.')
      case None => None
      case Some((table, rowText)) =>
        if |rowText| > 0 && |colText| > 0 && AllDigits(rowText) && AllDigits(colText) then
          Some(CellAddress(table, DecimalValue(rowText), DecimalValue(colText)))
        else
          None
  }

  /** The path `get_table_cell` hands to the host: it reads back as the
      normalised locator with the 1-based row and column turned zero-based. */
  function CellPath(tableLocator: string, row: Ordinal, col: Ordinal): (r: string)
    ensures ParseCellPath(r) == Some(CellAddress(GetLocator(tableLocator), row - 1, col - 1))
  {
    var table, rowText, colText := GetLocator(tableLocator), Decimal(row - 1), Decimal(col - 1);
    assert '.' !in colText by {
      assert forall i :: 0 <= i < |colText| ==> IsDigit(colText[i]);
    }
    assert '.' !in rowText by {
      assert forall i :: 0 <= i < |rowText| ==> IsDigit(rowText[i]);
    }
    SplitLastOfJoin(table + "." + rowText, '.', colText);
    SplitLastOfJoin(table, '.', rowText);
    DecimalRoundTrip(row - 1);
    DecimalRoundTrip(col - 1);
    table + "." + rowText + "." + colText
  }

  /** `get_table_cell`: one cell read, at the normalised locator with the
      row and column turned zero-based; the host's result is returned as it is. */
  function GetTableCell(host: Host, tableLocator: string, row: Ordinal, col: Ordinal): (r: Read)
    ensures r.queries == [CellQuery(CellPath(tableLocator, row, col))]
    // Follows from the first clause and `CellPath`'s contract; stated here
    // so the zero-based address is read off this contract directly.
    ensures ParseCellPath(r.queries[0].path) == Some(CellAddress(GetLocator(tableLocator), row - 1, col - 1))
    ensures r.value == host.getTable(r.queries[0].path)
  {
    Read(host.getTable(CellPath(tableLocator, row, col)), [CellQuery(CellPath(tableLocator, row, col))])
  }

  /** `table_cell_should_contain`: reads the cell; a failed read becomes an
      assertion failure with the cell message after logging its reason; a
      successful read logs the content and passes exactly when the expected
      text occurs in it, failing with the same message otherwise. */
  function TableCellShouldContain(host: Host, tableLocator: string, row: Ordinal, col: Ordinal, expected: string): (r: Run)
    ensures var read := GetTableCell(host, tableLocator, row, col);
      && r.queries == read.queries
      && (r.outcome.Fail? ==> r.outcome.error == AssertionError(CellMessage(tableLocator, row, col, expected)))
      && (r.outcome.Pass? <==> read.value.Success? && Contains(read.value.value, expected))
      && (read.value.Failure? ==> r.log == [host.errorMessage(read.value.error)])
      && (read.value.Success? ==> r.log == ["Cell contains " + read.value.value + "."])
  {
    var message := CellMessage(tableLocator, row, col, expected);
    var read := GetTableCell(host, tableLocator, row, col);
    match read.value
    case Failure(err) =>
      Run(Fail(AssertionError(message)), read.queries, [host.errorMessage(err)])
    case Success(content) =>
      var log := ["Cell contains " + content + "."];
      if !Contains(content, expected) then Run(Fail(AssertionError(message)), read.queries, log)
      else Run(Pass, read.queries, log)
  }

  /** Whatever the read's error said, the cell keyword's failure is the
      same assertion: only the info log keeps the original reason. */
  lemma CellFailureIgnoresReadError(host1: Host, host2: Host, tableLocator: string, row: Ordinal, col: Ordinal, expected: string)
    requires host1.getTable(CellPath(tableLocator, row, col)).Failure?
    requires host2.getTable(CellPath(tableLocator, row, col)).Failure?
    ensures TableCellShouldContain(host1, tableLocator, row, col, expected).outcome
         == TableCellShouldContain(host2, tableLocator, row, col, expected).outcome
  {
  }
}
