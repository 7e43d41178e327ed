# Inventory product table — a Dafny model

This project models the product table of a small Streamlit inventory application.
One SQLite table, `products`, holds records with a key, a name, a quantity, a price,
a supplier and a creation time. The page offers three actions on it:

- a form that adds a product or edits the one picked in a name-ordered selection box;
- a search box that filters by name or supplier, ignoring case;
- a list, newest first, with a delete button on each row.

In the source these rules sit inline between widgets and ORM calls. The model lifts
them into plain Dafny:

- `Records` (product.dfy): the `Product` record, the schema's defaults, and the form's values and bounds.
- `Text` (text.dfy): SQLite's `lower()`, substring matching for `ILIKE '%term%'`, and the BINARY collation used by `ORDER BY name`.
- `Table` (table.dfy): the table as a sequence of rows in key order, how the store assigns keys (largest key plus one, or 1 for an empty table), a `WHERE` filter, and the three changes the page makes: edit in place, append and delete by key.
- `Queries` (queries.dfy): the search filter, the newest-first list, the name-ordered selection list, and the lookup of the record to edit.
- `Store` (inventory.dfy): an `Inventory` class whose `rows` field is the committed table. Its `Save`, `SaveSelected` and `Delete` methods are the page's writes. "Committed" means the change is in `rows`.

Modelling choices:

- Rows are kept in ascending key order. A table scan returns rows in that order.
- `.first()` without `ORDER BY` therefore picks the earliest matching row.
- `ORDER BY id DESC` is the reversed search result.
- `product_to_edit`, the ORM object the form edits, is modelled as its position in `rows`.
- The time `datetime.utcnow` would give is the `now` parameter.
- The user's click on a button is the call of the matching method.

Behaviour of the code that the model keeps:

- Keys are one more than the largest key present, or 1 for an empty table. The column has no `AUTOINCREMENT`, so a freed largest key is handed out again (`Table.KeyReusedAfterDelete`).
- The search looks at name and supplier only.
- Price and quantity are only bounded below by 0, by the form's widgets.
- Authentication, roles, seeding and statistics are outside the product table and are not modelled.

## Model

| member | source | states |
|---|---|---|
| Records.NewRecord | database.py:12-19 | a new row carries the key and creation stamp the store gives it and the name supplied |
| Records.DefaultsWhenOmitted | database.py:16-18 | an omitted quantity, price and supplier default to 0, 0.0 and "" |
| Records.FromForm | ui.py:30 | the added record carries exactly the four submitted values; it is well formed iff the name is non-empty and the values are in the widgets' bounds |
| Records.WithForm | ui.py:24-27 | an edited record takes the four submitted values and keeps its key and creation stamp; well formed iff the name is non-empty and the values are in bounds |
| Text.LowerIdempotent | streamlit-app.py:86-87 | case folding as SQLite does it is idempotent and leaves no ASCII capital |
| Text.ContainsIffOccurs | streamlit-app.py:86-87 | the substring test holds iff the term occurs at some position of the field (both directions) |
| Text.ContainsTrivial | streamlit-app.py:84-87 | every field contains the empty term and itself |
| Text.IgnoresCase | streamlit-app.py:86-87 | the case-insensitive test holds iff some window of the field equals the term once both are folded to lower case (both directions) |
| Text.CollateReflexive | streamlit-app.py:38 | the name order is reflexive |
| Text.CollateTotal | streamlit-app.py:38 | any two names are ordered one way or the other |
| Text.CollateTransitive | streamlit-app.py:38 | the name order is transitive |
| Text.CollateAntisymmetric | streamlit-app.py:38 | two names each ordered before the other are equal |
| Table.AscendingIdsAreDistinct | database.py:14 | in the stored table no two rows share a primary key |
| Table.MaxId | database.py:14 | the largest key bounds every key and is the key of some row |
| Table.NextRowId | database.py:14 | a new key is above every existing key, so differs from all of them; 1 for an empty table |
| Table.Append | streamlit-app.py:66-68 | adding grows the table by exactly one row at the end, carrying the form's values and the fresh key; existing rows unchanged |
| Table.Edit | streamlit-app.py:60-64 | editing overwrites only the selected row, with the form's four values, key and creation stamp kept; all other rows and the length unchanged |
| Table.Where | streamlit-app.py:85-88 | a `WHERE` condition keeps exactly the rows that satisfy it and never more rows than the table has |
| Table.WhereAscending | streamlit-app.py:85-88 | filtering keeps the surviving keys in ascending order |
| Table.RemoveId | streamlit-app.py:116-118 | after a delete no row has that key, and a row remains iff it was there with another key |
| Table.AppendKeepsInvariant | ui.py:29-31 | adding a named, in-bounds record keeps keys unique and ascending and every row well formed; the new key was absent and is now present |
| Table.EditKeepsInvariant | ui.py:23-27 | editing with a named, in-bounds form keeps the table invariant |
| Table.RemoveKeepsInvariant | ui.py:61-63 | deleting keeps the table invariant |
| Table.RemoveOneRow | streamlit-app.py:117-118 | deleting a present key removes exactly one row |
| Table.RemoveAbsent | streamlit-app.py:117-118 | deleting an absent key changes nothing |
| Table.RemoveTwice | streamlit-app.py:117-118 | deleting the same key a second time changes nothing |
| Table.KeyReusedAfterDelete | database.py:14 | deleting the row just added restores the table, and the next add gets the same key again |
| Queries.Search | streamlit-app.py:83-88 | an empty term returns the whole table; any other term returns exactly the matching rows; the result is a subset of the table |
| Queries.EmptyTermMatchesAll | streamlit-app.py:84 | the filter with an empty term would keep every row, so skipping it for "" changes nothing |
| Queries.SearchIsSubset | streamlit-app.py:83-88 | the search result is a sub-multiset of the table and no longer than it |
| Queries.Displayed | streamlit-app.py:90 | the list holds the search result's rows, each as often, ordered by key strictly descending |
| Queries.DisplayedRows | streamlit-app.py:83-90 | a row is listed iff it is in the table and the term is empty or matches it |
| Queries.SortByName | streamlit-app.py:38 | the selection query returns a permutation of the table sorted by name ascending |
| Queries.SelectionOptions | streamlit-app.py:38-40 | the selection box offers one name per row, in ascending order: each name exactly as often as rows of the table carry it |
| Queries.InsertKeepsNames | streamlit-app.py:38 | inserting a row into the name-sorted list adds its name exactly once to the list's names |
| Queries.SortKeepsNames | streamlit-app.py:38 | sorting by name keeps every name as often as the table has it |
| Queries.FindByName | streamlit-app.py:47 | the lookup returns a row whose name equals the selection exactly, and no earlier row has that name; none iff no row has it |
| Queries.EditTarget | streamlit-app.py:45-47 | the record chosen for editing has exactly the selected name; a non-empty selected name present in the table always selects a record |
| Queries.FirstOfNameReachable | streamlit-app.py:46-47 | selecting a row's name reaches that row iff no earlier row has the same name: of duplicates only the first is editable |
| Store.Inventory.constructor | database.py:22-23 | a new store starts with an empty, valid table |
| Store.Inventory.Save | ui.py:18-34 | an empty name yields an error and changes nothing; with a selected row exactly its four editable fields change; without one exactly one row is added under a fresh key and stamped; the table invariant is kept |
| Store.Inventory.SaveSelected | streamlit-app.py:45-71 | the same save rules with the edited row found by the selected name; no selection, an empty selection or an absent name adds |
| Store.Inventory.Delete | ui.py:61-63 | the table afterwards is the old table without the row of that key; the table invariant is kept |

## Left out

- Streamlit rendering is not modelled: forms, columns, buttons, messages and `st.rerun`. Which button the user presses becomes which method is called, with what arguments.
- The engine, session and `create_db` are not modelled; they are I/O against SQLite. The table is an in-memory sequence. A commit is the assignment to `rows`.
- `draw_header` in ui.py only draws a title and is not modelled.
- Queries.Search: a `%` or `_` typed into the search term is a LIKE wildcard in the source. The model treats the term as plain text.
- Queries.SortByName: SQL leaves the order of rows with equal names open. The model sorts stably, but its contract promises only sorted order and a permutation.
- Table.NextRowId: SQLite picks a random unused key once the largest key reaches 2^63-1. That case is not modelled.
- Quantities are unbounded integers. The source's 64-bit INTEGER column limit is not modelled.
- Prices are exact reals, not binary floats. The two-decimal display formatting is not modelled.
- `added_at` is an opaque integer supplied by the caller. Timestamp formatting is not modelled.
- Store.Inventory.Save: requires the edited row to be in the table. In the source it is a live object just read from the table. A row deleted by another session in between is a concurrency case and is out of scope.
- Concurrent sessions and last-write-wins between browser tabs are not modelled.
- Authentication, roles, seeding and statistics are outside the product table and are not modelled.
- The mapped class declares its table as `tablename = "products"` (database.py:13, streamlit-app.py:16), which SQLAlchemy ignores. The model assumes `__tablename__ = "products"` was meant, so that the class maps to the `products` table.
