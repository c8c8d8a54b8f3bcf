# Table keywords of SeleniumLibrary, modelled in Dafny

This project models the `Table` keyword class of SeleniumLibrary
(`src/SeleniumLibrary/table.py`). The class turns a table locator, an
optional 1-based row or column number and an expected text into CSS
selector strings and failure messages. It then asks the host library either
to assert that the page holds an element matching a selector, or to read the
text of one cell. From the answer it decides pass or fail.

The model is pure, as the source is:

- `wrappers.dfy` (module `Wrappers`) holds `Option`, `Result` and `Outcome`. These stand in for Python's exceptions.
- `text.dfy` (module `Text`) holds the string operations the keywords rely on:
  - `StartsWith` models Python's `str.startswith`.
  - `Contains` models Python's `in` on strings.
  - `Decimal` models `%s` and `%d` on a non-negative int; `DecimalValue` reads it back.
  - `SplitLast` splits a string at the last occurrence of a character.
- `table.dfy` (module `Table`) holds the keywords, the shared vocabulary of selectors (`Section`, `Suffix`, `Selector`) and messages (`Subject`, `Message`, `CellMessage`), and the lemmas about them.

The host's capabilities are fields of a `Host` value:

- `pageShouldContainElement(locator, kind, message)` stands for `_page_should_contain_element`.
- `getTable(path)` stands for `_selenium.get_table`.
- `errorMessage(error)` stands for `_get_error_message`.

Every checking keyword returns a `Run`. A `Run` holds the outcome, the host queries the keyword made (in order), and the lines it wrote through `_info`. `GetTableCell` returns a `Read` instead: the value read, or the host's error, and its one query. With that record the model can say which queries are made and in which order, for example in the column keyword's fallback to header cells.

A failure raised by the host is an `Error`, which stands for an instance of a subclass of Python's `Exception`. It is either an `AssertionError` or any other kind (`OtherError`). The column keyword catches only the first kind (line 81). The cell keyword catches every kind (line 102).

Two consequences of the code are worth stating:

- Normalising is idempotent for every input, because the result always starts with `css=` (`GetLocatorIdempotent`).
- The column fallback tests the error's reason text for `should have contained text`, and only for an `AssertionError` (lines 81-82; `TriggersFallback`). Every message the keyword itself builds contains that phrase. So a host that reports the message it was given always triggers the retry (`ColumnRetriesOnOwnMessage`).

## Model

| member | source | states |
|---|---|---|
| `Table.GetLocator` | src/SeleniumLibrary/table.py:17-21 | The result always starts with `css=`. It equals the input exactly when the input starts with `css=`. Otherwise it is `css=table#` followed by the input. |
| `Table.GetLocatorIdempotent` | src/SeleniumLibrary/table.py:17-21 | Normalising a normalised locator changes nothing. |
| `Text.StartsWith` | src/SeleniumLibrary/table.py:18 | `s.startswith(prefix)` holds exactly when `s` is `prefix` followed by some string. |
| `Table.Selector` | src/SeleniumLibrary/table.py:28-84 | Every selector is the normalised locator, then the section's fixed suffix, then `:contains('<expected>')`, and nothing else. So every selector starts with `css=`. |
| `Table.SuffixInjective` | src/SeleniumLibrary/table.py:38-84 | The six structural suffixes (none, ` th`, ` tfoot td`, ` tr:nth-child(n)`, ` tr td:nth-child(n)`, ` tr th:nth-child(n)`) are pairwise distinct. Within one kind, the suffix determines the number. |
| `Table.SelectorDeterminesSection` | src/SeleniumLibrary/table.py:77-84 | For a fixed locator and expected text, equal selectors mean equal sections. In particular the `td` and `th` column selectors differ. |
| `Table.SelectorDeterminesExpected` | src/SeleniumLibrary/table.py:28-84 | For a fixed locator and section, the selector determines the expected text. |
| `Table.SelectorOfNormalised` | src/SeleniumLibrary/table.py:28 | Passing the normalised locator instead of the original builds the same selector. |
| `Table.SelectorNotEscaped` | src/SeleniumLibrary/table.py:28-38 | The expected text is not escaped. A whole-table check whose text holds `') th:contains('` builds the same selector as a header check on another locator. |
| `Table.Message` | src/SeleniumLibrary/table.py:29-78 | Each section message contains the caller's original locator, the expected text and the phrase `should have contained text`. A row message also contains the decimal row number, and a column message the decimal column number. |
| `Table.MessageDeterminesLocator` | src/SeleniumLibrary/table.py:29-78 | For a fixed subject and expected text, the message determines the locator the caller gave. |
| `Table.MessageDeterminesSubject` | src/SeleniumLibrary/table.py:29-78 | For a fixed locator and expected text, the message determines what it is about: table, header, footer, which row or which column. |
| `Table.MessageNotNormalised` | src/SeleniumLibrary/table.py:29-78 | For a locator without `css=`, the message differs from the one built from the normalised locator. The message carries the original. |
| `Table.CellMessage` | src/SeleniumLibrary/table.py:99 | The cell message contains the original locator, the decimal row and column, the expected text and the phrase. |
| `Table.CellMessageNotNormalised` | src/SeleniumLibrary/table.py:99 | The cell message carries the original locator, not the normalised one. |
| `Table.TableShouldContain` | src/SeleniumLibrary/table.py:23-30 | Makes exactly one element query: the whole-table selector, kind `element`, the `Table identified by ...` message. The host's verdict is the keyword's verdict. Nothing is logged. |
| `Table.TableHeaderShouldContain` | src/SeleniumLibrary/table.py:32-40 | Makes exactly one element query, on the ` th` selector with the `Header in table ...` message. Its verdict is the keyword's verdict. |
| `Table.TableFooterShouldContain` | src/SeleniumLibrary/table.py:42-50 | Makes exactly one element query, on the ` tfoot td` selector with the `Footer in table ...` message. Its verdict is the keyword's verdict. |
| `Table.TableRowShouldContain` | src/SeleniumLibrary/table.py:52-63 | Makes exactly one element query, on the ` tr:nth-child(row)` selector with the `Row #row in table ...` message. Its verdict is the keyword's verdict. |
| `Table.TableColumnShouldContain` | src/SeleniumLibrary/table.py:65-85 | The `td` query comes first. If it passes, the keyword passes and makes no other query. If it fails with a non-assertion error, or with a reason lacking the phrase, that same failure is the outcome and no `th` query is made. Otherwise exactly one `th` query follows, with the same column, text and message, and decides the outcome. |
| `Table.TriggersFallback` | src/SeleniumLibrary/table.py:81-82 | A failure triggers the header-cell retry exactly when it is an `AssertionError` and the phrase `should have contained text` occurs somewhere in its reason text. |
| `Table.ColumnQueries` | src/SeleniumLibrary/table.py:77-85 | The column keyword makes one or two queries. The first is always the `td` query. A second one is the `th` query, and it differs from the first. |
| `Table.ColumnPassesIff` | src/SeleniumLibrary/table.py:79-85 | The column keyword passes exactly when the `td` query passes, or when that query fails with a fallback-triggering assertion and the `th` query passes. |
| `Table.ColumnRetriesOnOwnMessage` | src/SeleniumLibrary/table.py:78-85 | Take a host that fails the `td` query with an assertion carrying the keyword's own message and reports that message as the reason. Then the retry always happens and its verdict is the outcome. |
| `Table.CellPath` | src/SeleniumLibrary/table.py:92 | The cell path, read as `locator.row.column` (split at the last two dots), gives back the normalised locator, `row - 1` and `column - 1`. |
| `Table.GetTableCell` | src/SeleniumLibrary/table.py:87-92 | Makes exactly one cell query, on exactly the path `CellPath` builds. That path decodes to the normalised locator with zero-based row and column. The host's result is returned unchanged, error included. |
| `Table.TableCellShouldContain` | src/SeleniumLibrary/table.py:94-107 | Makes the same single query as `GetTableCell`. Every failure is an `AssertionError` with exactly the cell message. It passes exactly when the read succeeds and the expected text is a substring of the content. The log holds the read error's reason or `Cell contains <content>.`. |
| `Table.CellFailureIgnoresReadError` | src/SeleniumLibrary/table.py:100-104 | Two hosts whose reads both fail give the same outcome, whatever their errors said. |
| `Text.Contains` | src/SeleniumLibrary/table.py:106 | `Contains(s, sub)` holds exactly when `sub` occurs in `s` at some index. This is Python's `in` on strings. |
| `Text.Decimal` | src/SeleniumLibrary/table.py:61-99 | `%d` and `%s` of a natural give one or more digits with no leading zero; the first digit is `0` only for zero. |
| `Text.DecimalRoundTrip` | src/SeleniumLibrary/table.py:92 | The digits that `%d` writes for a natural read back as that natural. |
| `Text.DecimalInjective` | src/SeleniumLibrary/table.py:61 | Distinct row or column numbers print differently in selectors and messages. |

## Left out

- What the selectors match in a browser is left to the host oracle. This covers `:nth-child()` (section 6.6.5.2 of W3C Selectors Level 3) and the non-standard `:contains()`.
- The docstring's claim that only the `tbody` section is searched (lines 54-55) is not a postcondition. The row selector at line 61 does not restrict the match to `tbody`. The merged-cell behaviour (lines 57 and 68-73) is also not a postcondition, because the browser decides it.
- The bodies of `_page_should_contain_element`, `_selenium.get_table` and `_get_error_message` are not modelled. They belong to the host object and are `Host` fields here. `_info` is modelled as a line appended to `Run.log`.
- Quoting of the expected text inside `:contains('...')` is not modelled, because the code does none. No lemma claims the selectors are well formed. `SelectorNotEscaped` shows the ambiguity this causes.
- Row and column numbers are naturals of at least 1 (`Ordinal`). The `int()` coercion of string arguments is not modelled. Nor is `%s` applied to a row given as a string (it would be copied verbatim). Nor are zero or negative numbers.
- Exceptions outside `Exception`, such as `KeyboardInterrupt` and `SystemExit`, are not modelled. The `except Exception` at line 102 would let them pass uncaught.
- Strings are sequences of characters, and building or searching one never fails. Under Python 2, `%` and `in` mixing `str` and `unicode` can raise `UnicodeDecodeError` (lines 28-107); that failure is not modelled.
- Python 2 exception syntax, tracebacks and the identity of a re-raised exception object are not modelled. A re-raised failure is the same `Error` value.
- Library loading, keyword registration and the host's configuration are not modelled.

