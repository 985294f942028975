/** The expense record: an immutable id and four editable fields. The record
    does no validation: empty text and non-positive amounts are stored as
    given. */
module Expenses {
  import opened Calendar
  import opened Ids

  /** The value an `Expense` holds at one moment. */
  datatype Record = Record(id: Uuid, date: LocalDate, category: string, description: string, amount: real)

  class Expense {
    const id: Uuid
    var date: LocalDate
    var category: string
    var description: string
    var amount: real

    /** `new Expense(id, date, category, description, amount)`: every field
        exactly as given. */
    constructor (id: Uuid, date: LocalDate, category: string, description: string, amount: real)
      ensures Value() == Record(id, date, category, description, amount)
    {
      this.id := id;
      this.date := date;
      this.category := category;
      this.description := description;
      this.amount := amount;
    }

    /** `new Expense(date, category, description, amount)`: the four fields as
        given and a random id, which the caller draws and passes in. */
    constructor Fresh(date: LocalDate, category: string, description: string, amount: real, randomId: Uuid)
      ensures Value() == Record(randomId, date, category, description, amount)
    {
      this.id := randomId;
      this.date := date;
      this.category := category;
      this.description := description;
      this.amount := amount;
    }

    /** The five getters at once; `getPrice` reads `amount`. */
    function Value(): (r: Record)
      reads this
      ensures r.id == id && r.date == date && r.category == category
      ensures r.description == description && r.amount == amount
    {
      Record(id, date, category, description, amount)
    }

    method SetDate(date: LocalDate)
      modifies this
      ensures Value() == old(Value()).(date := date)
    {
      this.date := date;
    }

    method SetCategory(category: string)
      modifies this
      ensures Value() == old(Value()).(category := category)
    {
      this.category := category;
    }

    method SetDescription(description: string)
      modifies this
      ensures Value() == old(Value()).(description := description)
    {
      this.description := description;
    }

    method SetPrice(amount: real)
      modifies this
      ensures Value() == old(Value()).(amount := amount)
    {
      this.amount := amount;
    }
  }

  /** Records of a list of expenses, position by position. */
  function Snapshot(es: seq<Expense>): (rs: seq<Record>)
    reads es
    ensures |rs| == |es|
    ensures forall i :: 0 <= i < |es| ==> rs[i] == es[i].Value()
  {
    if es == [] then [] else [es[0].Value()] + Snapshot(es[1..])
  }

  /** Listing one more expense adds its value at the end. */
  lemma SnapshotAppend(es: seq<Expense>, e: Expense)
    ensures Snapshot(es + [e]) == Snapshot(es) + [e.Value()]
  {
    var a, b := Snapshot(es + [e]), Snapshot(es) + [e.Value()];
    assert |a| == |b|;
    forall i | 0 <= i < |a| ensures a[i] == b[i] {
      if i < |es| {
        assert (es + [e])[i] == es[i];
      }
    }
  }
}
