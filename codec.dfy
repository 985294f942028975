/** The text form of the store, `expenses.csv`: a header line, then one
    line per record with the fields joined by commas, each line followed by
    the platform's line separator. It is not RFC 4180 CSV: nothing is quoted
    or escaped. Commas in a description are written as ';' and turned back
    into commas when read; the category is written as it is, and so is any
    line break inside either field. */
module Codec {
  import opened Wrappers
  import opened Text
  import opened Calendar
  import opened Money
  import opened Ids
  import opened Expenses

  const Header := "ID,Date,Category,Description,Price"

  /** One record line, with `sep` as the decimal separator of the amount. */
  function EncodeLineWith(r: Record, sep: char): (line: string)
  {
    Join(Fields(r, sep), ',')
  }

  /** The five fields `printf("%s,%s,%s,%s,%.2f%n", ...)` writes. */
  function Fields(r: Record, sep: char): (fields: seq<string>)
    ensures |fields| == 5
  {
    [FormatUuid(r.id), FormatIsoDate(r.date), r.category,
     Replace(r.description, ',', ';'), FormatAmountWith(r.amount, sep)]
  }

  /** The line `saveExpenses` prints for a record: the amount with a '.'. */
  function EncodeLine(r: Record): (line: string)
  {
    EncodeLineWith(r, '.')
  }

  /** The whole file: the header, then one line per record in list order. */
  function EncodeFile(rs: seq<Record>): (lines: seq<string>)
    ensures |lines| == |rs| + 1 && lines[0] == Header
  {
    [Header] + seq(|rs|, i requires 0 <= i < |rs| => EncodeLine(rs[i]))
  }

  /** The text `saveExpenses` writes: `println` of the header, then
      `printf("...%n")` of each record line, `nl` being the line separator. */
  function FileText(rs: seq<Record>, nl: string): (text: string)
    ensures rs == [] ==> text == Header + nl
  {
    assert Printed([Header], nl) == Header + nl + [];
    Printed(EncodeFile(rs), nl)
  }

  /** Line `i + 1` of the file is record `i`. */
  lemma EncodeFileAt(rs: seq<Record>, i: nat)
    requires i < |rs|
    ensures EncodeFile(rs)[i + 1] == EncodeLine(rs[i])
  {
  }

  /** Writing one more record writes one more line at the end. */
  lemma EncodeFileSnoc(rs: seq<Record>, i: nat)
    requires i < |rs|
    ensures EncodeFile(rs[..i + 1]) == EncodeFile(rs[..i]) + [EncodeLine(rs[i])]
  {
    var a, b := EncodeFile(rs[..i + 1]), EncodeFile(rs[..i]) + [EncodeLine(rs[i])];
    forall k | 0 <= k < |a| ensures a[k] == b[k] {
      if 0 < k <= i {
        EncodeFileAt(rs[..i + 1], k - 1);
        EncodeFileAt(rs[..i], k - 1);
      } else if k > i {
        EncodeFileAt(rs[..i + 1], i);
      }
    }
  }

  /** What reading one line does: the line is skipped, yields a record, or
      throws. `BadField` is an `IllegalArgumentException` (a malformed id or
      amount), which the loader catches; `BadDate` is a
      `DateTimeParseException`, which it does not. */
  datatype LineOutcome = Skipped | Decoded(record: Record) | BadField | BadDate

  /** Reading one line: split on ',' into at most five parts; any other
      number of parts skips the line; then the id, the date and the amount
      are parsed, in that order. */
  function DecodeLine(line: string): (o: LineOutcome)
    ensures o.Skipped? <==> Count(line, ',') < 4
  {
    SplitCount(line, ',', 5);
    var parts := Split(line, ',', 5);
    if |parts| != 5 then Skipped
    else match ParseUuid(parts[0])
      case None => BadField
      case Some(id) =>
        match ParseIsoDate(parts[1])
        case None => BadDate
        case Some(date) =>
          match ParseAmount(parts[4])
          case None => BadField
          case Some(amount) => Decoded(Record(id, date, parts[2], Replace(parts[3], ';', ','), amount))
  }

  /** How a load ends: every line read, stopped by a caught exception at a
      line, or stopped by an uncaught one, which ends the construction of
      the store. */
  datatype LoadStatus = Completed | Aborted(line: nat) | Crashed(line: nat)

  datatype LoadResult = LoadResult(records: seq<Record>, status: LoadStatus)

  /** What reading each line would do, line by line. */
  function Outcomes(lines: seq<string>): (os: seq<LineOutcome>)
    ensures |os| == |lines|
  {
    seq(|lines|, j requires 0 <= j < |lines| => DecodeLine(lines[j]))
  }

  lemma OutcomeAt(lines: seq<string>, j: nat)
    requires j < |lines|
    ensures Outcomes(lines)[j] == DecodeLine(lines[j])
  {
  }

  /** Reading lines one by one: the outcomes of a prefix are a prefix of
      the outcomes. */
  lemma OutcomesPrefix(lines: seq<string>, k: nat)
    requires k <= |lines|
    ensures Outcomes(lines[..k]) == Outcomes(lines)[..k]
  {
    forall j | 0 <= j < k ensures Outcomes(lines[..k])[j] == Outcomes(lines)[j] {
      OutcomeAt(lines[..k], j);
      OutcomeAt(lines, j);
    }
  }

  /** Reading from line `i` on, after the records `acc`: the first exception
      ends the load, so the lines after it are never read. */
  function Fold(os: seq<LineOutcome>, i: nat, acc: seq<Record>): (r: LoadResult)
    ensures |acc| <= |r.records| && r.records[..|acc|] == acc
    ensures r.status.Aborted? ==> i <= r.status.line < |os|
    decreases |os| - i
  {
    if i >= |os| then LoadResult(acc, Completed)
    else match os[i]
      case Skipped => Fold(os, i + 1, acc)
      case Decoded(rec) =>
        var r := Fold(os, i + 1, acc + [rec]);
        assert r.records[..|acc|] == (acc + [rec])[..|acc|];
        r
      case BadField => LoadResult(acc, Aborted(i))
      case BadDate => LoadResult(acc, Crashed(i))
  }

  /** The loop of `loadExpenses` over the lines `readLine` returns: the
      first line is skipped and the rest are read in order. */
  function DecodeLines(lines: seq<string>): (r: LoadResult)
    ensures |lines| <= 1 ==> r == LoadResult([], Completed)
  {
    Fold(Outcomes(lines), 1, [])
  }

  /** `loadExpenses`: no file gives no records; otherwise the text is read
      line by line. */
  function DecodeFile(file: Option<string>): (r: LoadResult)
    ensures file.None? ==> r == LoadResult([], Completed)
  {
    match file
    case None => LoadResult([], Completed)
    case Some(text) => DecodeLines(Lines(text))
  }

  // ---------------------------------------------------------------------
  // Round trip
  // ---------------------------------------------------------------------

  /** A record whose text fields hold no line break: its line is one line
      of the file. */
  predicate SingleLine(r: Record) {
    OnOneLine(r.category) && OnOneLine(r.description)
  }

  /** A record the file keeps intact, except for rounding the amount: no
      comma in the category, no ';' in the description, no line break in
      either. */
  predicate Storable(r: Record) {
    ',' !in r.category && ';' !in r.description && SingleLine(r)
  }

  /** The record as it comes back: the amount rounded to cents. */
  function Normalize(r: Record): (n: Record)
    ensures n.id == r.id && n.date == r.date && n.category == r.category
    ensures n.description == r.description && n.amount == Round2(r.amount)
  {
    r.(amount := Round2(r.amount))
  }

  function NormalizeAll(rs: seq<Record>): (ns: seq<Record>)
    ensures |ns| == |rs|
    ensures forall i :: 0 <= i < |rs| ==> ns[i] == Normalize(rs[i])
  {
    if rs == [] then [] else [Normalize(rs[0])] + NormalizeAll(rs[1..])
  }

  /** A storable record survives a write and a read, its amount rounded. */
  lemma LineRoundTrip(r: Record)
    requires Storable(r)
    ensures DecodeLine(EncodeLine(r)) == Decoded(Normalize(r))
  {
    var fields := Fields(r, '.');
    ReplaceRemoves(r.description, ',', ';');
    SplitJoin(fields, ',');
    SplitCount(EncodeLine(r), ',', 5);
    UuidRoundTrip(r.id);
    IsoDateRoundTrip(r.date);
    AmountRoundTrip(r.amount);
    ReplaceBack(r.description, ',', ';');
  }

  /** Two comma-free fields in front of a tail with three or more commas:
      the split keeps them and cuts the tail into three parts, the last
      still holding a comma. */
  lemma SplitAfterTwoFields(a: string, b: string, tail: string)
    requires ',' !in a && ',' !in b && Count(tail, ',') >= 3
    ensures var parts := Split(a + [','] + (b + [','] + tail), ',', 5);
            |parts| == 5 && parts[0] == a && parts[1] == b && Count(parts[4], ',') >= 1
  {
    SplitTwoFields(a, b, tail);
    SplitLastKeepsSeparator(tail, ',', 3);
  }

  lemma SplitTwoFields(a: string, b: string, tail: string)
    requires ',' !in a && ',' !in b
    ensures Split(a + [','] + (b + [','] + tail), ',', 5) == [a] + ([b] + Split(tail, ',', 3))
  {
    SplitField(a, ',', b + [','] + tail, 5);
    SplitField(b, ',', tail, 4);
  }

  lemma CountTwoFields(a: string, b: string, tail: string)
    requires ',' !in a && ',' !in b
    ensures Count(a + [','] + (b + [','] + tail), ',') == 2 + Count(tail, ',')
  {
    assert Count([','], ',') == 1;
    CountAppend(b, [','], ',');
    CountAppend(b + [','], tail, ',');
    CountAppend(a, [','], ',');
    CountAppend(a + [','], b + [','] + tail, ',');
  }

  /** A line whose first two fields are a valid id and date, with five or
      more commas, keeps a comma in its fifth part: the amount cannot be
      parsed and the line throws `NumberFormatException`. */
  lemma ExtraCommaRejected(r: Record, sep: char)
    requires Count(EncodeLineWith(r, sep), ',') >= 5
    ensures DecodeLine(EncodeLineWith(r, sep)) == BadField
  {
    var fields := Fields(r, sep);
    var line := EncodeLineWith(r, sep);
    var id, date := fields[0], fields[1];
    var tail := Join(fields[2..], ',');
    assert line == id + [','] + Join(fields[1..], ',');
    assert Join(fields[1..], ',') == date + [','] + tail by {
      assert fields[1..][0] == date && fields[1..][1..] == fields[2..];
    }
    CountTwoFields(id, date, tail);
    SplitAfterTwoFields(id, date, tail);
    var parts := Split(line, ',', 5);
    UuidRoundTrip(r.id);
    IsoDateRoundTrip(r.date);
    ParseAmountRejectsComma(parts[4]);
  }

  /** A comma in the category shifts the fields: the line is not skipped but
      throws at the amount, which ends the load. */
  lemma CategoryCommaRejected(r: Record)
    requires ',' in r.category
    ensures DecodeLine(EncodeLine(r)) == BadField
  {
    CountJoin(Fields(r, '.'), ',', 2);
    ExtraCommaRejected(r, '.');
  }

  /** With ',' as the decimal separator every record line throws at the
      amount, whatever the record holds. */
  lemma LocaleCommaRejected(r: Record)
    ensures DecodeLine(EncodeLineWith(r, ',')) == BadField
  {
    var a := FormatAmountWith(r.amount, ',');
    assert a[|a| - 3] == ',';
    CountJoin(Fields(r, ','), ',', 4);
    ExtraCommaRejected(r, ',');
  }

  // ---------------------------------------------------------------------
  // Whole files
  // ---------------------------------------------------------------------

  /** Line `j` of a saved file reads back as record `j - 1`. */
  lemma EncodedLineAt(rs: seq<Record>, j: nat)
    requires 1 <= j <= |rs| && Storable(rs[j - 1])
    ensures DecodeLine(EncodeFile(rs)[j]) == Decoded(Normalize(rs[j - 1]))
  {
    var line := EncodeFile(rs)[j];
    assert line == EncodeLine(rs[j - 1]);
    LineRoundTrip(rs[j - 1]);
  }

  lemma EncodedOutcomeAt(rs: seq<Record>, j: nat)
    requires 1 <= j <= |rs| && Storable(rs[j - 1])
    ensures Outcomes(EncodeFile(rs))[j] == Decoded(Normalize(rs[j - 1]))
  {
    OutcomeAt(EncodeFile(rs), j);
    EncodedLineAt(rs, j);
  }

  lemma EncodedOutcomes(rs: seq<Record>)
    requires forall r :: r in rs ==> Storable(r)
    ensures var os := Outcomes(EncodeFile(rs));
            |os| == |rs| + 1 && forall j :: 1 <= j < |os| ==> os[j] == Decoded(NormalizeAll(rs)[j - 1])
  {
    var os := Outcomes(EncodeFile(rs));
    forall j | 1 <= j < |os| ensures os[j] == Decoded(NormalizeAll(rs)[j - 1]) {
      EncodedOutcomeAt(rs, j);
    }
  }

  lemma {:induction false} FoldDecoded(os: seq<LineOutcome>, recs: seq<Record>, i: nat, acc: seq<Record>)
    requires |os| == |recs| + 1 && 1 <= i <= |os|
    requires forall j :: 1 <= j < |os| ==> os[j] == Decoded(recs[j - 1])
    ensures Fold(os, i, acc) == LoadResult(acc + recs[i - 1..], Completed)
    decreases |os| - i
  {
    if i == |os| {
      assert acc + recs[i - 1..] == acc;
    } else {
      FoldDecoded(os, recs, i + 1, acc + [recs[i - 1]]);
      assert recs[i - 1..] == [recs[i - 1]] + recs[i..];
    }
  }

  /** Every line of a saved file of single-line records is one line. */
  lemma EncodedOnOneLine(rs: seq<Record>)
    requires forall r :: r in rs ==> SingleLine(r)
    ensures forall j :: 0 <= j < |EncodeFile(rs)| ==> OnOneLine(EncodeFile(rs)[j])
  {
    var lines := EncodeFile(rs);
    assert OnOneLine(Header);
    forall j | 1 <= j < |lines| ensures OnOneLine(lines[j]) {
      EncodeFileAt(rs, j - 1);
      LineOnOneLine(rs[j - 1]);
    }
  }

  lemma LineOnOneLine(r: Record)
    requires SingleLine(r)
    ensures OnOneLine(EncodeLine(r))
  {
    var fields := Fields(r, '.');
    assert fields[4] == FormatAmount(r.amount);
    ReplaceAvoids(r.description, ',', ';', '\n');
    ReplaceAvoids(r.description, ',', ';', '\r');
    JoinAvoids(fields, ',', '\n');
    JoinAvoids(fields, ',', '\r');
  }

  /** The lines of a saved file of storable records load back as those
      records, in order, with their amounts rounded to cents. */
  lemma EncodedLinesRoundTrip(rs: seq<Record>)
    requires forall r :: r in rs ==> Storable(r)
    ensures DecodeLines(EncodeFile(rs)) == LoadResult(NormalizeAll(rs), Completed)
  {
    var os := Outcomes(EncodeFile(rs));
    var recs := NormalizeAll(rs);
    EncodedOutcomes(rs);
    FoldDecoded(os, recs, 1, []);
    assert [] + recs[0..] == recs;
  }

  /** Saving then loading storable records gives them back, in order, with
      their amounts rounded to cents, whichever line separator the platform
      writes. */
  lemma FileRoundTrip(rs: seq<Record>, nl: string)
    requires IsLineSeparator(nl)
    requires forall r :: r in rs ==> Storable(r)
    ensures DecodeFile(Some(FileText(rs, nl))) == LoadResult(NormalizeAll(rs), Completed)
  {
    EncodedOnOneLine(rs);
    LinesOfPrinted(EncodeFile(rs), nl);
    EncodedLinesRoundTrip(rs);
  }

  // ---------------------------------------------------------------------
  // Line breaks inside a field
  // ---------------------------------------------------------------------

  /** A record read from a line of the file has no line break in its text
      fields. */
  lemma DecodedSingleLine(line: string)
    requires OnOneLine(line) && DecodeLine(line).Decoded?
    ensures SingleLine(DecodeLine(line).record)
  {
    SplitCount(line, ',', 5);
    var parts := Split(line, ',', 5);
    SplitAvoids(line, ',', 5, '\n');
    SplitAvoids(line, ',', 5, '\r');
    ReplaceAvoids(parts[3], ';', ',', '\n');
    ReplaceAvoids(parts[3], ';', ',', '\r');
  }

  lemma {:induction false} FoldSingleLine(os: seq<LineOutcome>, i: nat, acc: seq<Record>)
    requires forall r :: r in acc ==> SingleLine(r)
    requires forall j :: i <= j < |os| && os[j].Decoded? ==> SingleLine(os[j].record)
    ensures forall r :: r in Fold(os, i, acc).records ==> SingleLine(r)
    decreases |os| - i
  {
    if i < |os| {
      match os[i]
      case Skipped =>
        FoldSingleLine(os, i + 1, acc);
      case Decoded(rec) =>
        FoldSingleLine(os, i + 1, acc + [rec]);
      case BadField =>
      case BadDate =>
    }
  }

  /** Whatever the file holds, every record loaded from it is single-line. */
  lemma LoadedSingleLine(text: string)
    ensures forall r :: r in DecodeFile(Some(text)).records ==> SingleLine(r)
  {
    var lines := Lines(text);
    var os := Outcomes(lines);
    forall j | 1 <= j < |os| && os[j].Decoded? ensures SingleLine(os[j].record) {
      OutcomeAt(lines, j);
      DecodedSingleLine(lines[j]);
    }
    FoldSingleLine(os, 1, []);
  }

  /** A record with a line break in its category or description is saved
      over several lines, and loading the file never gives it back. */
  lemma LineBreakLost(rs: seq<Record>, nl: string, r: Record)
    requires r in rs && !SingleLine(r)
    ensures r !in DecodeFile(Some(FileText(rs, nl))).records
    ensures Normalize(r) !in DecodeFile(Some(FileText(rs, nl))).records
  {
    LoadedSingleLine(FileText(rs, nl));
  }

  lemma {:induction false} FoldPrefix(os: seq<LineOutcome>, i: nat, k: nat, acc: seq<Record>)
    requires i <= k <= |os|
    requires Fold(os[..k], i, acc).status == Completed
    ensures Fold(os, i, acc) == Fold(os, k, Fold(os[..k], i, acc).records)
    decreases k - i
  {
    if i < k {
      assert os[..k][i] == os[i];
      match os[i]
      case Skipped =>
        FoldPrefix(os, i + 1, k, acc);
      case Decoded(rec) =>
        FoldPrefix(os, i + 1, k, acc + [rec]);
      case BadField =>
      case BadDate =>
    }
  }

  /** The first line that throws ends the load: the records read before it
      are kept, whatever follows it is lost. A caught exception
      (`IllegalArgumentException`) aborts the load; a bad date escapes. */
  lemma StopsAtFirstBadLine(lines: seq<string>, k: nat)
    requires 1 <= k < |lines|
    requires DecodeLines(lines[..k]).status == Completed
    requires DecodeLine(lines[k]) == BadField || DecodeLine(lines[k]) == BadDate
    ensures DecodeLines(lines).records == DecodeLines(lines[..k]).records
    ensures DecodeLines(lines).status
            == if DecodeLine(lines[k]) == BadField then Aborted(k) else Crashed(k)
  {
    var os := Outcomes(lines);
    OutcomesPrefix(lines, k);
    OutcomeAt(lines, k);
    FoldPrefix(os, 1, k, []);
  }

  lemma {:induction false} FoldSameTail(a: seq<LineOutcome>, b: seq<LineOutcome>, i: nat, acc: seq<Record>)
    requires |a| == |b| && forall j :: i <= j < |a| ==> a[j] == b[j]
    ensures Fold(a, i, acc) == Fold(b, i, acc)
    decreases |a| - i
  {
    if i < |a| {
      match a[i]
      case Skipped =>
        FoldSameTail(a, b, i + 1, acc);
      case Decoded(rec) =>
        FoldSameTail(a, b, i + 1, acc + [rec]);
      case BadField =>
      case BadDate =>
    }
  }

  /** Whatever the first line says, it is never read as a record. */
  lemma HeaderSkipped(first: string, other: string, rest: seq<string>)
    ensures DecodeLines([first] + rest) == DecodeLines([other] + rest)
  {
    var a, b := Outcomes([first] + rest), Outcomes([other] + rest);
    forall j | 1 <= j < |a| ensures a[j] == b[j] {
      var line := rest[j - 1];
      assert ([first] + rest)[j] == line && ([other] + rest)[j] == line;
      OutcomeAt([first] + rest, j);
      OutcomeAt([other] + rest, j);
    }
    FoldSameTail(a, b, 1, []);
  }
}
