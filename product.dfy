/** The `products` record: its fields, the schema defaults and what a saved row looks like. */
module Records {

  datatype Option<T> = None | Some(value: T)

  /** One row of the `products` table. `price` is a decimal amount and
      `addedAt` an opaque timestamp supplied by the caller. */
  datatype Product = Product(
    id: int,
    name: string,
    quantity: int,
    price: real,
    supplier: string,
    addedAt: int)

  /** The four values the add/edit form submits. */
  datatype Form = Form(name: string, quantity: int, price: real, supplier: string)

  /** The bounds the form's number widgets enforce on what a user can submit. */
  predicate InBounds(f: Form)
  {
    f.quantity >= 0 && f.price >= 0.0
  }

  /** A row as the application stores it: a non-empty name and the form's bounds. */
  predicate WellFormed(p: Product)
  {
    p.name != "" && p.quantity >= 0 && p.price >= 0.0
  }

  /** A row built by the store from the values a caller supplied; an omitted
      value takes the column default (quantity 0, price 0.0, supplier ""). */
  function NewRecord(id: int, name: string, quantity: Option<int>, price: Option<real>,
                     supplier: Option<string>, addedAt: int): (p: Product)
    ensures p.id == id && p.name == name && p.addedAt == addedAt
  {
    Product(id, name,
            if quantity.Some? then quantity.value else 0,
            if price.Some? then price.value else 0.0,
            if supplier.Some? then supplier.value else "",
            addedAt)
  }

  /** Every omitted column takes its schema default. */
  lemma DefaultsWhenOmitted(id: int, name: string, addedAt: int)
    ensures NewRecord(id, name, None, None, None, addedAt) == Product(id, name, 0, 0.0, "", addedAt)
  {
  }

  /** The record the form's add branch creates: the four submitted values, the
      store's id and the creation stamp; it is well formed exactly when the
      form had a name and kept its bounds. */
  function FromForm(id: int, f: Form, addedAt: int): (p: Product)
    ensures p.id == id && p.addedAt == addedAt
    ensures p.name == f.name && p.quantity == f.quantity && p.price == f.price && p.supplier == f.supplier
    ensures WellFormed(p) <==> f.name != "" && InBounds(f)
  {
    NewRecord(id, f.name, Some(f.quantity), Some(f.price), Some(f.supplier), addedAt)
  }

  /** The edit branch: the four editable fields take the form's values, the id
      and the creation stamp stay. */
  function WithForm(p: Product, f: Form): (q: Product)
    ensures q.id == p.id && q.addedAt == p.addedAt
    ensures q.name == f.name && q.quantity == f.quantity && q.price == f.price && q.supplier == f.supplier
    ensures WellFormed(q) <==> f.name != "" && InBounds(f)
  {
    p.(name := f.name, quantity := f.quantity, price := f.price, supplier := f.supplier)
  }
}
