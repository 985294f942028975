/** The add/edit dialog: four text fields, an OK button that validates them
    and either fills in a new expense or changes the edited one, and a
    Cancel button. The text the user typed is passed to `OnOk`; the
    message boxes are represented by the error `OnOk` returns. */
module Dialog {
  import opened Wrappers
  import opened Text
  import opened Calendar
  import opened Money
  import opened Ids
  import opened Expenses

  /** The three message boxes of `onOK`, in the order they are checked. */
  datatype InputError =
    | InvalidDate          // DateTimeParseException from the date field
    | InvalidAmount        // NumberFormatException from the price field
    | MissingOrNonPositive // empty category or description, or amount <= 0

  /** The four values `onOK` reads off a form it accepts. */
  datatype Input = Input(date: LocalDate, category: string, description: string, amount: real)

  /** The checks of `onOK`: every field is trimmed; the date is parsed
      first, then the amount; only then are the text fields and the sign of
      the amount looked at. */
  function ReadForm(dateText: string, categoryText: string, descriptionText: string, amountText: string): (r: Result<Input, InputError>)
    ensures r == Failure(InvalidDate) <==> ParseDialogDate(Trim(dateText)).None?
    ensures r == Failure(InvalidAmount) <==>
              ParseDialogDate(Trim(dateText)).Some? && ParseAmount(Trim(amountText)).None?
    ensures r.Success? <==>
              && ParseDialogDate(Trim(dateText)).Some?
              && ParseAmount(Trim(amountText)).Some?
              && ParseAmount(Trim(amountText)).value > 0.0
              && Trim(categoryText) != [] && Trim(descriptionText) != []
    ensures r.Success? ==>
              && Some(r.value.date) == ParseDialogDate(Trim(dateText))
              && Some(r.value.amount) == ParseAmount(Trim(amountText))
              && r.value.category == Trim(categoryText)
              && r.value.description == Trim(descriptionText)
  {
    match ParseDialogDate(Trim(dateText))
    case None => Failure(InvalidDate)
    case Some(date) =>
      var category, description := Trim(categoryText), Trim(descriptionText);
      match ParseAmount(Trim(amountText))
      case None => Failure(InvalidAmount)
      case Some(amount) =>
        if category == [] || description == [] || amount <= 0.0 then Failure(MissingOrNonPositive)
        else Success(Input(date, category, description, amount))
  }

  /** Whitespace around any field never changes the outcome, and what is
      accepted carries no surrounding whitespace. */
  lemma ReadFormIgnoresSpace(dateText: string, categoryText: string, descriptionText: string, amountText: string)
    ensures ReadForm(Trim(dateText), Trim(categoryText), Trim(descriptionText), Trim(amountText))
            == ReadForm(dateText, categoryText, descriptionText, amountText)
    ensures var r := ReadForm(dateText, categoryText, descriptionText, amountText);
            r.Success? ==> Trim(r.value.category) == r.value.category && Trim(r.value.description) == r.value.description
  {
    TrimIdempotent(dateText);
    TrimIdempotent(categoryText);
    TrimIdempotent(descriptionText);
    TrimIdempotent(amountText);
  }

  /** `Double.parseDouble("0.01")` is one cent. */
  lemma OneCentParses()
    ensures ParseAmount("0.01") == Some(0.01)
  {
    var t := "0.01";
    assert Trim(t) == t by { TrimOfTrimmed(t); }
    assert t == "0" + (['.'] + "01");
    UnsignedWithPoint("0", "01");
    assert DigitsValue("01") == 1;
    ShiftTwo(1.0);
  }

  /** `Double.parseDouble("0")` is zero. */
  lemma ZeroParses()
    ensures ParseAmount("0") == Some(0.0)
  {
    assert Trim("0") == "0" by { TrimOfTrimmed("0"); }
  }

  /** The positivity boundary: with a valid date and non-blank category and
      description, an amount of zero or below is refused and one cent is
      accepted. */
  lemma PositivityBoundary(dateText: string, categoryText: string, descriptionText: string, amountText: string)
    requires ParseDialogDate(Trim(dateText)).Some?
    requires Trim(categoryText) != [] && Trim(descriptionText) != []
    ensures ParseAmount(Trim(amountText)).Some? && ParseAmount(Trim(amountText)).value <= 0.0 ==>
              ReadForm(dateText, categoryText, descriptionText, amountText) == Failure(MissingOrNonPositive)
    ensures ReadForm(dateText, categoryText, descriptionText, "0") == Failure(MissingOrNonPositive)
    ensures ReadForm(dateText, categoryText, descriptionText, "0.01").Success?
    ensures ReadForm(dateText, categoryText, descriptionText, "0.01").value.amount == 0.01
  {
    ZeroParses();
    OneCentParses();
    assert Trim("0") == "0" && Trim("0.01") == "0.01" by {
      TrimOfTrimmed("0");
      TrimOfTrimmed("0.01");
    }
  }

  /** An edit form left as the store would show it reads back as the
      expense: its date written as ISO text (from year 0001 on), and an
      amount text that parses to the amount. */
  lemma ReadFormOfRecord(r: Record, amountText: string)
    requires r.date.year >= 1 && r.amount > 0.0
    requires r.category != [] && Trim(r.category) == r.category
    requires r.description != [] && Trim(r.description) == r.description
    requires ParseAmount(amountText) == Some(r.amount)
    ensures ReadForm(FormatIsoDate(r.date), r.category, r.description, amountText)
            == Success(Input(r.date, r.category, r.description, r.amount))
  {
    DialogDateOnCanonical(r.date);
    assert Trim(FormatIsoDate(r.date)) == FormatIsoDate(r.date) by {
      FormatIsoDateShape(r.date);
      TrimOfTrimmed(FormatIsoDate(r.date));
    }
    ParseAmountIgnoresSpace(amountText);
  }

  class ExpenseDialog {
    /** What the dialog hands back: empty until OK succeeds. */
    var expenseOptional: Option<Expense>
    /** The expense being edited, or `null` when adding a new one. */
    const existingExpense: Expense?

    /** `new ExpenseDialog(parent, expenseToEdit)`: nothing to hand back yet. */
    constructor (expenseToEdit: Expense?)
      ensures expenseOptional == None && existingExpense == expenseToEdit
    {
      expenseOptional := None;
      existingExpense := expenseToEdit;
    }

    /** `getExpense`: the current result. */
    method GetExpense() returns (r: Option<Expense>)
      ensures r == expenseOptional
    {
      r := expenseOptional;
    }

    /** `onOK` on the texts of the four fields. On an error the message is
        returned and nothing changes. Otherwise, in edit mode the edited
        expense takes the four values and is itself the result; in add mode
        the result is a new expense with the id `randomId`. `None` means the
        dialog closed. */
    method OnOk(dateText: string, categoryText: string, descriptionText: string, amountText: string, randomId: Uuid)
      returns (error: Option<InputError>)
      modifies this, existingExpense
      ensures var r := ReadForm(dateText, categoryText, descriptionText, amountText);
              && (r.Failure? ==> error == Some(r.error) && expenseOptional == old(expenseOptional))
              && (r.Success? ==> error == None)
      ensures var r := ReadForm(dateText, categoryText, descriptionText, amountText);
              existingExpense != null ==>
                existingExpense.Value() ==
                  if r.Failure? then old(existingExpense.Value())
                  else Record(existingExpense.id, r.value.date, r.value.category, r.value.description, r.value.amount)
      ensures var r := ReadForm(dateText, categoryText, descriptionText, amountText);
              r.Success? && existingExpense != null ==> expenseOptional == Some(existingExpense)
      ensures var r := ReadForm(dateText, categoryText, descriptionText, amountText);
              r.Success? && existingExpense == null ==>
                && expenseOptional.Some? && fresh(expenseOptional.value)
                && expenseOptional.value.Value() == Record(randomId, r.value.date, r.value.category, r.value.description, r.value.amount)
    {
      var r := ReadForm(dateText, categoryText, descriptionText, amountText);
      if r.Failure? {
        return Some(r.error);
      }
      var input := r.value;
      if existingExpense != null {
        existingExpense.SetDate(input.date);
        existingExpense.SetCategory(input.category);
        existingExpense.SetDescription(input.description);
        existingExpense.SetPrice(input.amount);
        expenseOptional := Some(existingExpense);
      } else {
        var e := new Expense.Fresh(input.date, input.category, input.description, input.amount, randomId);
        expenseOptional := Some(e);
      }
      error := None;
    }

    /** `onCancel`: the result is emptied, whatever OK did before. */
    method OnCancel()
      modifies this
      ensures expenseOptional == None
    {
      expenseOptional := None;
    }
  }
}
