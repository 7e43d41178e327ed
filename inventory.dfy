/** The inventory page's writes, lifted out of the page into one object: the
    table's rows and the save and delete actions the page offers. */
module Store {
  import opened Records
  import opened Table
  import opened Queries

  /** What a press of the save button led to. */
  datatype Outcome =
    | NameRequired          // empty name: an error message, nothing saved
    | Edited(id: int)       // the selected row took the form's values
    | Added(id: int)        // a new row with this key was stored

  class Inventory {
    /** The committed rows of the `products` table, in key order. */
    var rows: seq<Product>

    ghost predicate Valid()
      reads this
    {
      TableInvariant(rows)
    }

    /** A freshly created, empty table. */
    constructor ()
      ensures Valid() && rows == []
    {
      rows := [];
    }

    /** The save button of the add/edit form. `editing` is the row the form
        was opened on, if any. An empty name is refused before anything is
        written; otherwise the selected row's four editable fields are
        overwritten in place, or, with no row selected, one new row is added
        under a fresh key and stamped with `now`. */
    method Save(editing: Option<nat>, form: Form, now: int) returns (outcome: Outcome)
      requires Valid()
      requires editing.Some? ==> editing.value < |rows|
      requires InBounds(form)
      modifies this
      ensures Valid()
      ensures form.name == "" ==> outcome == NameRequired && rows == old(rows)
      ensures form.name != "" && editing.Some? ==>
                outcome == Edited(old(rows)[editing.value].id) && rows == Edit(old(rows), editing.value, form)
      ensures form.name != "" && editing.None? ==>
                outcome == Added(NextRowId(old(rows))) && rows == Append(old(rows), form, now)
    {
      if form.name == "" {
        return NameRequired;
      }
      if editing.Some? {
        var k := editing.value;
        EditKeepsInvariant(rows, k, form);
        outcome := Edited(rows[k].id);
        rows := Edit(rows, k, form);
      } else {
        AppendKeepsInvariant(rows, form, now);
        outcome := Added(NextRowId(rows));
        rows := Append(rows, form, now);
      }
    }

    /** The same form as the page drives it: the row to edit is looked up by
        the name chosen in the selection box, and a name that selects nothing
        (none chosen, empty, or no longer present) means adding. */
    method SaveSelected(selected: Option<string>, form: Form, now: int) returns (outcome: Outcome)
      requires Valid()
      requires InBounds(form)
      modifies this
      ensures Valid()
      ensures form.name == "" ==> outcome == NameRequired && rows == old(rows)
      ensures form.name != "" && EditTarget(old(rows), selected).Some? ==>
                var k := EditTarget(old(rows), selected).value;
                outcome == Edited(old(rows)[k].id) && rows == Edit(old(rows), k, form)
      ensures form.name != "" && EditTarget(old(rows), selected).None? ==>
                outcome == Added(NextRowId(old(rows))) && rows == Append(old(rows), form, now)
    {
      var target := EditTarget(rows, selected);
      outcome := Save(target, form, now);
    }

    /** The delete button of a listed row: the row with that key is removed. */
    method Delete(id: int)
      requires Valid()
      modifies this
      ensures Valid()
      ensures rows == RemoveId(old(rows), id)
    {
      RemoveKeepsInvariant(rows, id);
      rows := RemoveId(rows, id);
    }
  }
}
