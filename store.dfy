/** The store: an in-memory list of expenses kept in step with the file
    `expenses.csv`. Every change to the list rewrites the whole file. The
    file's text is a field of the store (`None` while it does not exist), so
    the effect of each operation on it is part of that operation's
    contract. */
module Store {
  import opened Wrappers
  import opened Text
  import opened Ids
  import opened Expenses
  import opened Codec

  /** `findFirst` on the ids of a list: the position of the first expense
      with id `id`. Ids never change, so no heap state is read. */
  function FirstWithId(es: seq<Expense>, id: Uuid): (r: Option<nat>)
    ensures r.Some? ==> r.value < |es| && es[r.value].id == id
    ensures r.Some? ==> forall j :: 0 <= j < r.value ==> es[j].id != id
    ensures r.None? <==> forall j :: 0 <= j < |es| ==> es[j].id != id
  {
    if es == [] then None
    else if es[0].id == id then Some(0)
    else match FirstWithId(es[1..], id)
      case None => None
      case Some(k) => Some(k + 1)
  }

  /** `removeIf(e -> e.getId().equals(id))`. */
  function RemoveId(es: seq<Expense>, id: Uuid): (r: seq<Expense>)
    ensures |r| <= |es|
  {
    if es == [] then []
    else if es[0].id == id then RemoveId(es[1..], id)
    else [es[0]] + RemoveId(es[1..], id)
  }

  /** Exactly the expenses with another id stay. */
  lemma {:induction false} RemoveIdMembers(es: seq<Expense>, id: Uuid, e: Expense)
    ensures e in RemoveId(es, id) <==> e in es && e.id != id
  {
    if es != [] {
      RemoveIdMembers(es[1..], id, e);
      assert es == [es[0]] + es[1..];
    }
  }

  /** Removal works piece by piece, so the survivors keep their order. */
  lemma {:induction false} RemoveIdAppend(a: seq<Expense>, b: seq<Expense>, id: Uuid)
    ensures RemoveId(a + b, id) == RemoveId(a, id) + RemoveId(b, id)
  {
    if a == [] {
      assert a + b == b;
    } else {
      assert (a + b)[1..] == a[1..] + b;
      RemoveIdAppend(a[1..], b, id);
    }
  }

  /** A list without the id is left as it is. */
  lemma {:induction false} RemoveIdAbsent(es: seq<Expense>, id: Uuid)
    requires forall j :: 0 <= j < |es| ==> es[j].id != id
    ensures RemoveId(es, id) == es
  {
    if es != [] {
      RemoveIdAbsent(es[1..], id);
    }
  }

  /** A second removal of the same id changes nothing. */
  lemma RemoveIdIdempotent(es: seq<Expense>, id: Uuid)
    ensures RemoveId(RemoveId(es, id), id) == RemoveId(es, id)
  {
    var r := RemoveId(es, id);
    forall j | 0 <= j < |r| ensures r[j].id != id {
      RemoveIdMembers(es, id, r[j]);
    }
    RemoveIdAbsent(r, id);
  }

  class ExpenseManager {
    /** The list, in insertion order; the same object may be listed twice. */
    var expenses: seq<Expense>
    /** The text of `expenses.csv`, or `None` when there is no such file. */
    var file: Option<string>
    /** `System.lineSeparator()` of the platform the store runs on. */
    const newline: string

    /** The values of the listed expenses, in list order. */
    function Records(): (rs: seq<Record>)
      reads this`expenses, expenses
      ensures |rs| == |expenses|
      ensures forall i :: 0 <= i < |expenses| ==> rs[i] == expenses[i].Value()
    {
      Snapshot(expenses)
    }

    /** The store before it has read anything. */
    constructor Empty(file: Option<string>, newline: string)
      ensures expenses == [] && this.file == file && this.newline == newline
    {
      expenses := [];
      this.file := file;
      this.newline := newline;
    }

    /** `new ExpenseManager()`: an empty list, then `loadExpenses`. A bad date
        in the file throws out of the constructor, so there is no store
        (`null`); any other failure leaves the records read so far. */
    static method Open(file: Option<string>, newline: string) returns (m: ExpenseManager?)
      ensures m == null <==> DecodeFile(file).status.Crashed?
      ensures m != null ==> fresh(m) && m.file == file && m.newline == newline
      ensures m != null ==> m.Records() == DecodeFile(file).records
      ensures m != null ==> forall e :: e in m.expenses ==> fresh(e)
    {
      m := new ExpenseManager.Empty(file, newline);
      var status := m.LoadExpenses();
      if status.Crashed? {
        m := null;
      }
    }

    /** `loadExpenses`: with no file nothing is read; otherwise the lines
        `readLine` finds after the header are read in order. */
    method LoadExpenses() returns (status: LoadStatus)
      requires expenses == []
      modifies this
      ensures file == old(file)
      ensures Records() == DecodeFile(file).records && status == DecodeFile(file).status
      ensures forall e :: e in expenses ==> fresh(e)
    {
      if file.None? {
        return Completed;
      }
      status := ReadLines(Lines(file.value));
    }

    /** The loop of `loadExpenses`: one line at a time from the second on,
        until the end of the file or the first line that throws. */
    method ReadLines(lines: seq<string>) returns (status: LoadStatus)
      requires expenses == []
      modifies this
      ensures file == old(file)
      ensures Records() == Fold(Outcomes(lines), 1, []).records
      ensures status == Fold(Outcomes(lines), 1, []).status
      ensures forall e :: e in expenses ==> fresh(e)
    {
      ghost var os := Outcomes(lines);
      status := Completed;
      var i := 1;
      assert Records() == [];
      while i < |lines| && status == Completed
        invariant status == Completed ==> Fold(os, 1, []) == Fold(os, i, Records())
        invariant status != Completed ==> Fold(os, 1, []) == LoadResult(Records(), status)
        invariant forall e :: e in expenses ==> fresh(e)
        invariant file == old(file)
        decreases |lines| - i
      {
        ghost var before := Records();
        var outcome := ReadLine(lines[i]);
        assert os[i] == outcome by {
          OutcomeAt(lines, i);
        }
        if outcome.BadField? {
          status := Aborted(i);
        } else if outcome.BadDate? {
          status := Crashed(i);
        }
        i := i + 1;
      }
    }

    /** One pass of that loop: a line that holds a record appends a new
        expense holding it; any other line changes nothing. */
    method ReadLine(line: string) returns (outcome: LineOutcome)
      modifies this
      ensures outcome == DecodeLine(line) && file == old(file)
      ensures outcome.Decoded? ==> Records() == old(Records()) + [outcome.record]
      ensures !outcome.Decoded? ==> expenses == old(expenses)
      ensures forall e :: e in expenses ==> e in old(expenses) || fresh(e)
    {
      outcome := DecodeLine(line);
      if outcome.Decoded? {
        var r := outcome.record;
        var e := new Expense(r.id, r.date, r.category, r.description, r.amount);
        SnapshotAppend(expenses, e);
        expenses := expenses + [e];
      }
    }

    /** `saveExpenses`: the whole file is rewritten from the list. */
    method SaveExpenses()
      modifies this
      ensures expenses == old(expenses)
      ensures file == Some(FileText(Records(), newline))
    {
      var text := WriteLines();
      ghost var rs := Records();
      file := Some(text);
      assert Records() == rs;
    }

    /** The loop of `saveExpenses`: the header, then one line per expense in
        list order, each followed by the line separator. */
    method WriteLines() returns (text: string)
      ensures text == FileText(Records(), newline)
    {
      ghost var rs := Records();
      text := Header + newline;
      PrintedSnoc([], Header, newline);
      assert [] + [Header] == EncodeFile(rs[..0]);
      var i := 0;
      while i < |expenses|
        invariant 0 <= i <= |expenses|
        invariant text == Printed(EncodeFile(rs[..i]), newline)
      {
        var line := EncodeLine(expenses[i].Value());
        EncodeFileSnoc(rs, i);
        PrintedSnoc(EncodeFile(rs[..i]), line, newline);
        text := text + line + newline;
        i := i + 1;
      }
      assert rs[..i] == rs;
    }

    /** `addExpense`: appended at the end, with no check for a duplicate id,
        and saved. */
    method AddExpense(expense: Expense)
      modifies this
      ensures expenses == old(expenses) + [expense]
      ensures file == Some(FileText(Records(), newline))
    {
      expenses := expenses + [expense];
      SaveExpenses();
    }

    /** `getAllExpenses`: a copy of the list; the expenses themselves are
        shared with the store. */
    method GetAllExpenses() returns (es: seq<Expense>)
      ensures es == expenses && Snapshot(es) == Records()
    {
      es := expenses;
    }

    /** `getExpenseById`: the first expense with the id, if any. */
    function GetExpenseById(id: Uuid): (r: Option<Expense>)
      reads this
      ensures r.Some? ==> r.value in expenses && r.value.id == id
      ensures r.None? <==> forall e :: e in expenses ==> e.id != id
      ensures r.Some? ==> exists k :: 0 <= k < |expenses| && expenses[k] == r.value
                                      && forall j :: 0 <= j < k ==> expenses[j].id != id
    {
      match FirstWithId(expenses, id)
      case None => None
      case Some(k) => Some(expenses[k])
    }

    /** `updateExpense`: the first expense with the same id takes the other
        four fields of `updated`, wherever it is listed, and the store is
        saved; with no such expense nothing happens. */
    method UpdateExpense(updated: Expense)
      modifies this, set e | e in expenses
      ensures expenses == old(expenses)
      ensures old(GetExpenseById(updated.id)).None? ==> Records() == old(Records()) && file == old(file)
      ensures old(GetExpenseById(updated.id)).Some? ==>
                var target := old(GetExpenseById(updated.id)).value;
                && file == Some(FileText(Records(), newline))
                && forall i :: 0 <= i < |expenses| ==>
                     Records()[i] == if expenses[i] == target then old(updated.Value()) else old(Records()[i])
    {
      match GetExpenseById(updated.id) {
        case None =>
        case Some(e) =>
          ghost var value := updated.Value();
          e.SetDate(updated.date);
          e.SetCategory(updated.category);
          e.SetDescription(updated.description);
          e.SetPrice(updated.amount);
          assert e.Value() == value;
          SaveExpenses();
      }
    }

    /** `deleteExpense`: every expense with the id goes, the rest keep their
        order, and the store is saved even when nothing was removed. */
    method DeleteExpense(id: Uuid)
      modifies this
      ensures expenses == RemoveId(old(expenses), id)
      ensures GetExpenseById(id).None?
      ensures file == Some(FileText(Records(), newline))
    {
      expenses := RemoveId(expenses, id);
      forall e | e in expenses ensures e.id != id {
        RemoveIdMembers(old(expenses), id, e);
      }
      SaveExpenses();
    }
  }
}
