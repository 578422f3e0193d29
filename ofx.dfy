/**
 * `create_ofx`: each movement row becomes one `<STMTTRN>` block of an OFX 2.1.1
 * banking statement (section 11.4.3 of the OFX 2.1.1 specification), rows
 * whose date or amount cannot be read are skipped, and the blocks are
 * wrapped in a fixed header and footer.
 */
module Ofx {
  import opened Wrappers
  import opened Strings
  import opened Decimals
  import opened Dates
  import opened Cells

  /** What `amount` holds once the cell has been read: an int, a float or NaN. */
  datatype Amount = Whole(i: int) | Float(d: Decimal) | NaN

  datatype TrnType = CREDIT | DEBIT

  /** A movement ready to be written: posting date, amount and memo. */
  datatype Txn = Txn(posted: Timestamp, amount: Amount, memo: string)

  // ----- amounts -----

  /** Regional amount text `1.250,50` made float-readable: drop every `.`, then `,` becomes `.`. */
  function CleanAmountText(s: string): string {
    ReplaceAll(RemoveAll(s, '.'), ',', '.')
  }

  /**
   * After cleaning no comma is left, there is one point per comma of the
   * input, and exactly the input's points were dropped.
   */
  lemma CleanAmountTextCounts(s: string)
    ensures ',' !in CleanAmountText(s)
    ensures Count(CleanAmountText(s), '.') == Count(s, ',')
    ensures |CleanAmountText(s)| == |s| - Count(s, '.')
  {
    var t := RemoveAll(s, '.');
    CountRemoveAll(s, '.', ',');
    CountReplaceAll(t, ',', '.');
    CountAbsent(t, '.');
  }

  /** The regional text `1.250,50` cleans to `1250.50`. */
  lemma CleanAmountExample()
    ensures CleanAmountText("1.250,50") == "1250.50"
  {
    PointsRemovedExample();
    CommaReplacedExample();
  }

  lemma PointsRemovedExample()
    ensures RemoveAll("1.250,50", '.') == "1250,50"
  {
    assert "1.250,50" == "1" + ['.'] + "250,50";
    RemoveAllBetween("1", "250,50", '.');
    assert "1" + "250,50" == "1250,50";
  }

  lemma CommaReplacedExample()
    ensures ReplaceAll("1250,50", ',', '.') == "1250.50"
  {
    var r := ReplaceAll("1250,50", ',', '.');
    assert forall i :: 0 <= i < 7 ==> r[i] == "1250.50"[i];
  }

  /** The amount cell read as the converter reads it; `None` is the `ValueError` or `TypeError`. */
  function AmountOf(c: Cell): Option<Amount> {
    match c
    case Null => Some(NaN)
    case Text(s) => (match Parse(CleanAmountText(s)) case Some(d) => Some(Float(d)) case None => None)
    case Int(i) => Some(Whole(i))
    case Real(d) => Some(Float(d))
    case Stamp(_) => None
  }

  /**
   * A regional amount text, digits with a decimal comma after an optional
   * minus sign such as `-45,00`, reads as the decimal its digits spell.
   */
  lemma RegionalAmount(negative: bool, whole: string, frac: string)
    requires AllDigits(whole) && AllDigits(frac) && |whole| >= 1 && |frac| >= 1
    ensures AllDigits(whole + frac)
    ensures AmountOf(Text(Signed(negative, whole + "," + frac)))
            == Some(Float(Decimal(negative, DigitsValue(whole + frac), |frac|)))
  {
    CommaToPoint(negative, whole, frac);
    RemoveAllAbsent(Signed(negative, whole + "," + frac), '.');
    ParsePositional(negative, whole, frac);
  }

  /**
   * A regional amount text with one thousands point such as `1.250,50`
   * reads as the decimal its digits spell.
   */
  lemma RegionalThousands(negative: bool, high: string, low: string, frac: string)
    requires AllDigits(high) && AllDigits(low) && AllDigits(frac) && |high| >= 1 && |frac| >= 1
    ensures AllDigits(high + low + frac)
    ensures AmountOf(Text(Signed(negative, high + "." + low + "," + frac)))
            == Some(Float(Decimal(negative, DigitsValue(high + low + frac), |frac|)))
  {
    var whole := high + low;
    assert AllDigits(whole);
    ThousandsPointRemoved(negative, high, low, frac);
    CommaToPoint(negative, whole, frac);
    ParsePositional(negative, whole, frac);
    assert whole + frac == high + low + frac;
  }

  lemma ThousandsPointRemoved(negative: bool, high: string, low: string, frac: string)
    requires AllDigits(high) && AllDigits(low) && AllDigits(frac)
    ensures RemoveAll(Signed(negative, high + "." + low + "," + frac), '.') == Signed(negative, (high + low) + "," + frac)
  {
    var pre, post := Signed(negative, high), low + "," + frac;
    SignedSplit(negative, high, low, frac);
    NoPointBefore(negative, high);
    NoPointAfter(low, frac);
    RemoveAllBetween(pre, post, '.');
  }

  lemma SignedSplit(negative: bool, high: string, low: string, frac: string)
    ensures Signed(negative, high + "." + low + "," + frac) == Signed(negative, high) + ['.'] + (low + "," + frac)
    ensures Signed(negative, high) + (low + "," + frac) == Signed(negative, (high + low) + "," + frac)
  {
  }

  lemma NoPointBefore(negative: bool, high: string)
    requires AllDigits(high)
    ensures '.' !in Signed(negative, high)
  {
    var pre := Signed(negative, high);
    assert forall i :: 0 <= i < |pre| ==> pre[i] == '-' || IsDigit(pre[i]);
  }

  lemma NoPointAfter(low: string, frac: string)
    requires AllDigits(low) && AllDigits(frac)
    ensures '.' !in low + "," + frac
  {
    var post := low + "," + frac;
    assert forall i :: 0 <= i < |post| ==> post[i] == ',' || IsDigit(post[i]);
  }

  /** The regional text `1.250,50`, with a thousands point, reads as 1250.50. */
  lemma ThousandsExample()
    ensures AmountOf(Text("1.250,50")) == Some(Float(Decimal(false, 125050, 2)))
  {
    RegionalThousands(false, "1", "250", "50");
    ThousandsText();
  }

  lemma ThousandsText()
    ensures Signed(false, "1" + "." + "250" + "," + "50") == "1.250,50"
    ensures "1" + "250" + "50" == "125050"
    ensures DigitsValue("125050") == 125050
  {
    assert "125050"[..5] == "12505" && "12505"[..4] == "1250" && "1250"[..3] == "125";
    assert "125"[..2] == "12" && "12"[..1] == "1";
  }

  /** The regional text `-45,00` reads as -45.00. */
  lemma NegativeExample()
    ensures AmountOf(Text("-45,00")) == Some(Float(Decimal(true, 4500, 2)))
  {
    RegionalAmount(true, "45", "00");
    NegativeText();
  }

  lemma NegativeText()
    ensures Signed(true, "45" + "," + "00") == "-45,00"
    ensures "45" + "00" == "4500"
    ensures DigitsValue("4500") == 4500
  {
    assert "4500"[..3] == "450" && "450"[..2] == "45" && "45"[..1] == "4";
  }

  /** In a signed digit text with a decimal comma, the comma is the only character cleaning changes. */
  lemma CommaToPoint(negative: bool, whole: string, frac: string)
    requires AllDigits(whole) && AllDigits(frac)
    ensures '.' !in Signed(negative, whole + "," + frac)
    ensures ReplaceAll(Signed(negative, whole + "," + frac), ',', '.') == Signed(negative, whole + "." + frac)
  {
    var sign := if negative then "-" else "";
    var s, t := Signed(negative, whole + "," + frac), Signed(negative, whole + "." + frac);
    var n := |sign| + |whole|;
    assert |s| == |t| == n + 1 + |frac|;
    forall i | 0 <= i < |s|
      ensures s[i] != '.' && (if i == n then s[i] == ',' && t[i] == '.' else s[i] != ',' && t[i] == s[i])
    {
      if i < |sign| {
        assert s[i] == '-' && t[i] == '-';
      } else if i < n {
        assert s[i] == whole[i - |sign|] && t[i] == whole[i - |sign|];
      } else if i > n {
        assert s[i] == frac[i - n - 1] && t[i] == frac[i - n - 1];
      }
    }
    var r := ReplaceAll(s, ',', '.');
    assert forall i :: 0 <= i < |s| ==> r[i] == t[i];
  }

  /** `str(amount)`, the `<TRNAMT>` text. */
  function AmountText(a: Amount): string {
    match a
    case Whole(i) => IntToString(i)
    case Float(d) => Render(d)
    case NaN => "nan"
  }

  /** `'CREDIT' if amount > 0 else 'DEBIT'` (NaN compares false). */
  function TypeOf(a: Amount): TrnType {
    match a
    case Whole(i) => if i > 0 then CREDIT else DEBIT
    case Float(d) => if Positive(d) then CREDIT else DEBIT
    case NaN => DEBIT
  }

  function TypeName(k: TrnType): string {
    match k
    case CREDIT => "CREDIT"
    case DEBIT => "DEBIT"
  }

  /** A movement is a CREDIT exactly when its `<TRNAMT>` text shows a strictly positive number. */
  lemma TypeAgreesWithAmountText(a: Amount)
    ensures TypeOf(a) == CREDIT <==> DenotesPositive(AmountText(a))
  {
    match a
    case Whole(i) => IntToStringPositive(i);
    case Float(d) => RenderPositive(d);
    case NaN =>
      assert !HasNonzeroDigit("nan");
  }

  // ----- dates -----

  /** The date cell read as the converter reads it; `None` is the parse error or `AttributeError`. */
  function DateOf(c: Cell): Option<Timestamp> {
    match c
    case Text(s) => ParseDayFirst(s)
    case Stamp(t) => Some(t)
    case _ => None
  }

  // ----- FITID -----

  /** `memo[:3]` */
  function Prefix3(memo: string): (r: string)
    ensures |r| <= 3 && (|r| == 3 || r == memo)
    ensures |r| <= |memo| && r == memo[..|r|]
  {
    if |memo| <= 3 then memo else memo[..3]
  }

  /** The FITID: date text, amount text without its points and `memo[:3]`, with every space removed. */
  function Fitid(t: Txn): string {
    RemoveAll(FormatYmd(t.posted) + RemoveAll(AmountText(t.amount), '.') + Prefix3(t.memo), ' ')
  }

  /**
   * The FITID has no space; it is the `%Y%m%d` date text followed by the
   * amount text with points and spaces removed and by the first three memo
   * characters with spaces removed.
   */
  lemma FitidParts(t: Txn)
    ensures ' ' !in Fitid(t)
    ensures Fitid(t) == FormatYmd(t.posted)
                        + RemoveAll(RemoveAll(AmountText(t.amount), '.'), ' ')
                        + RemoveAll(Prefix3(t.memo), ' ')
    ensures |Fitid(t)| <= 8 + |AmountText(t.amount)| + 3
  {
    var ds := FormatYmd(t.posted);
    var am := RemoveAll(AmountText(t.amount), '.');
    var m3 := Prefix3(t.memo);
    RemoveAllAppend(ds + am, m3, ' ');
    RemoveAllAppend(ds, am, ' ');
    RemoveAllAbsent(ds, ' ');
  }

  /** The FITID starts with the `<DTPOSTED>` date text. */
  lemma FitidStartsWithDate(t: Txn)
    ensures |Fitid(t)| >= 8 && Fitid(t)[..8] == FormatYmd(t.posted)
  {
    FitidParts(t);
  }

  /** Digits, after a minus sign or not. */
  predicate SignedDigits(p: string) {
    |p| >= 1 && (AllDigits(p) || (p[0] == '-' && AllDigits(p[1..])))
  }

  /**
   * The amount part of the FITID of a non-empty amount is digits, after a
   * minus sign exactly when the amount is negative (the sign is not removed).
   */
  lemma FitidAmountPart(a: Amount)
    requires !a.NaN?
    ensures SignedDigits(RemoveAll(AmountText(a), '.'))
    ensures RemoveAll(AmountText(a), '.')[0] == '-' <==> (a.Whole? && a.i < 0) || (a.Float? && a.d.negative)
  {
    match a
    case Whole(i) => WholeAmountPart(i);
    case Float(d) => FloatAmountPart(d);
  }

  lemma WholeAmountPart(i: int)
    ensures SignedDigits(RemoveAll(IntToString(i), '.'))
    ensures RemoveAll(IntToString(i), '.')[0] == '-' <==> i < 0
  {
    var s := NatToString(if i < 0 then -i else i);
    DigitsNoPoint(s);
    if i < 0 {
      MinusKept(s);
      assert ("-" + s)[1..] == s;
    } else {
      assert IsDigit(s[0]);
    }
  }

  lemma FloatAmountPart(d: Decimal)
    ensures SignedDigits(RemoveAll(Render(d), '.'))
    ensures RemoveAll(Render(d), '.')[0] == '-' <==> d.negative
  {
    var n := Norm(d);
    PointedDigits(n.negative, WholeDigits(n), FracDigits(n));
  }

  /** Removing the point from signed `whole.frac` leaves signed digits. */
  lemma PointedDigits(negative: bool, whole: string, frac: string)
    requires AllDigits(whole) && AllDigits(frac) && |whole| >= 1
    ensures SignedDigits(RemoveAll(Signed(negative, whole + "." + frac), '.'))
    ensures RemoveAll(Signed(negative, whole + "." + frac), '.')[0] == '-' <==> negative
  {
    var body := whole + "." + frac;
    var digits := whole + frac;
    PointRemoved(whole, frac);
    assert AllDigits(digits);
    if negative {
      MinusKept(body);
      assert ("-" + digits)[1..] == digits;
    } else {
      assert Signed(negative, body) == body;
      assert IsDigit(digits[0]);
    }
  }

  lemma PointRemoved(whole: string, frac: string)
    requires AllDigits(whole) && AllDigits(frac)
    ensures RemoveAll(whole + "." + frac, '.') == whole + frac
  {
    assert "." == ['.'];
    RemoveAllBetween(whole, frac, '.');
  }

  lemma MinusKept(body: string)
    ensures RemoveAll("-" + body, '.') == "-" + RemoveAll(body, '.')
  {
    RemoveAllAppend("-", body, '.');
    assert RemoveAll("-", '.') == "-";
  }

  lemma DigitsNoPoint(s: string)
    requires AllDigits(s)
    ensures RemoveAll(s, '.') == s
  {
    RemoveAllAbsent(s, '.');
  }

  // ----- one row -----

  /**
   * The body of the loop's `try`: read the date, then the amount, then the
   * memo; `None` when any step raises and the row is skipped.
   */
  function ProcessRow(labels: seq<string>, row: Row, cols: Columns): Option<Txn> {
    match Lookup(labels, row, cols.date)
    case None => None
    case Some(dc) =>
      match DateOf(dc)
      case None => None
      case Some(posted) =>
        match Lookup(labels, row, cols.amount)
        case None => None
        case Some(ac) =>
          match AmountOf(ac)
          case None => None
          case Some(amount) =>
            match Lookup(labels, row, cols.memo)
            case None => None
            case Some(mc) => Some(Txn(posted, amount, CellText(mc)))
  }

  /**
   * A row whose amount cell is empty is not skipped when its date reads, as
   * a date cell or as day-first text: the empty cell is NaN, which `amount > 0` rejects, so the movement is a
   * DEBIT whose `<TRNAMT>` reads `nan`.
   */
  lemma NullAmountIsNanDebit(labels: seq<string>, row: Row, cols: Columns, dc: Cell, posted: Timestamp, memo: Cell)
    requires Lookup(labels, row, cols.date) == Some(dc) && DateOf(dc) == Some(posted)
    requires Lookup(labels, row, cols.amount) == Some(Null)
    requires Lookup(labels, row, cols.memo) == Some(memo)
    ensures ProcessRow(labels, row, cols) == Some(Txn(posted, NaN, CellText(memo)))
    ensures Contains(Block(Txn(posted, NaN, CellText(memo))), OpenTag("TRNTYPE") + "DEBIT" + CloseTag("TRNTYPE"))
    ensures Contains(Block(Txn(posted, NaN, CellText(memo))), OpenTag("TRNAMT") + "nan" + CloseTag("TRNAMT"))
  {
    NullAmountRead(labels, row, cols, dc, posted, memo);
    NanBlock(Txn(posted, NaN, CellText(memo)));
  }

  lemma NullAmountRead(labels: seq<string>, row: Row, cols: Columns, dc: Cell, posted: Timestamp, memo: Cell)
    requires Lookup(labels, row, cols.date) == Some(dc) && DateOf(dc) == Some(posted)
    requires Lookup(labels, row, cols.amount) == Some(Null)
    requires Lookup(labels, row, cols.memo) == Some(memo)
    ensures ProcessRow(labels, row, cols) == Some(Txn(posted, NaN, CellText(memo)))
  {
    assert AmountOf(Null) == Some(NaN);
  }

  lemma NanBlock(t: Txn)
    requires t.amount == NaN
    ensures Contains(Block(t), OpenTag("TRNTYPE") + "DEBIT" + CloseTag("TRNTYPE"))
    ensures Contains(Block(t), OpenTag("TRNAMT") + "nan" + CloseTag("TRNAMT"))
  {
    BlockShowsType(t);
    BlockShowsAmount(t);
  }

  /** A row whose date cell is empty, or missing, is skipped. */
  lemma NullDateSkipped(labels: seq<string>, row: Row, cols: Columns)
    requires Lookup(labels, row, cols.date) in {None, Some(Null)}
    ensures ProcessRow(labels, row, cols).None?
  {
  }

  // ----- text of the document -----

  const Header: string :=
    "<?xml version=\"1.0\" encoding=\"UTF-8\" standalone=\"no\"?>\n"
    + "<?OFX OFXHEADER=\"200\" VERSION=\"211\" SECURITY=\"NONE\" OLDFILEUID=\"NONE\" NEWFILEUID=\"NONE\"?>\n"
    + "<OFX>\n"
    + "    <BANKMSGSRSV1><STMTTRNRS><STMTRS>\n"
    + "        <CURDEF>EUR</CURDEF>\n"
    + "        <BANKTRANLIST>"

  const Footer: string := "</BANKTRANLIST></STMTRS></STMTTRNRS></BANKMSGSRSV1></OFX>"

  const Indent16: string := "                "
  const Indent20: string := Indent16 + "    "

  /** One element on its own line: `<TAG>value</TAG>`. */
  function Field(tag: string, value: string): string {
    ("\n" + Indent20) + OpenTag(tag) + value + CloseTag(tag)
  }

  function OpenTag(tag: string): string {
    "<" + tag + ">"
  }

  function CloseTag(tag: string): string {
    "</" + tag + ">"
  }

  /** The lines of one `<STMTTRN>` block, from the texts of its elements. */
  function BlockLines(kind: string, posted: string, amount: string, fitid: string, memo: string): seq<string> {
    [ "\n" + Indent16 + "<STMTTRN>",
      Field("TRNTYPE", kind),
      Field("DTPOSTED", posted),
      Field("TRNAMT", amount),
      Field("FITID", fitid),
      Field("MEMO", memo),
      "\n" + Indent16 + "</STMTTRN>" ]
  }

  /** The `<STMTTRN>` block appended for one movement. */
  function Block(t: Txn): string {
    Concat(BlockLines(TypeName(TypeOf(t.amount)), FormatYmd(t.posted), AmountText(t.amount), Fitid(t), t.memo))
  }

  /** Blocks are never empty. */
  lemma BlockNonEmpty(t: Txn)
    ensures |Block(t)| > 0
  {
    LinesNonEmpty(TypeName(TypeOf(t.amount)), FormatYmd(t.posted), AmountText(t.amount), Fitid(t), t.memo);
  }

  lemma LinesNonEmpty(kind: string, posted: string, amount: string, fitid: string, memo: string)
    ensures |Concat(BlockLines(kind, posted, amount, fitid, memo))| > 0
  {
    ConcatInfix(BlockLines(kind, posted, amount, fitid, memo), 0);
  }

  /**
   * The block shows the same date text in `<DTPOSTED>` and at the start of
   * `<FITID>`, and the transaction type that the amount's sign gives.
   */
  lemma BlockAgreement(t: Txn)
    ensures Contains(Block(t), OpenTag("DTPOSTED") + FormatYmd(t.posted) + CloseTag("DTPOSTED"))
    ensures Contains(Block(t), OpenTag("FITID") + FormatYmd(t.posted))
    ensures Contains(Block(t), OpenTag("TRNTYPE") + TypeName(TypeOf(t.amount)) + CloseTag("TRNTYPE"))
  {
    BlockShowsDate(t);
    BlockShowsFitidDate(t);
    BlockShowsType(t);
  }

  lemma BlockShowsDate(t: Txn)
    ensures Contains(Block(t), OpenTag("DTPOSTED") + FormatYmd(t.posted) + CloseTag("DTPOSTED"))
  {
    LinesShowField(TypeName(TypeOf(t.amount)), FormatYmd(t.posted), AmountText(t.amount), Fitid(t), t.memo, 2);
  }

  lemma BlockShowsFitidDate(t: Txn)
    ensures Contains(Block(t), OpenTag("FITID") + FormatYmd(t.posted))
  {
    FitidStartsWithDate(t);
    LinesShowFitidPrefix(TypeName(TypeOf(t.amount)), FormatYmd(t.posted), AmountText(t.amount), Fitid(t), t.memo, FormatYmd(t.posted));
  }

  lemma BlockShowsType(t: Txn)
    ensures Contains(Block(t), OpenTag("TRNTYPE") + TypeName(TypeOf(t.amount)) + CloseTag("TRNTYPE"))
  {
    LinesShowField(TypeName(TypeOf(t.amount)), FormatYmd(t.posted), AmountText(t.amount), Fitid(t), t.memo, 1);
  }

  lemma BlockShowsAmount(t: Txn)
    ensures Contains(Block(t), OpenTag("TRNAMT") + AmountText(t.amount) + CloseTag("TRNAMT"))
  {
    LinesShowField(TypeName(TypeOf(t.amount)), FormatYmd(t.posted), AmountText(t.amount), Fitid(t), t.memo, 3);
  }

  /** The type, date and amount lines each show their element. */
  lemma LinesShowField(kind: string, posted: string, amount: string, fitid: string, memo: string, k: nat)
    requires 1 <= k <= 3
    ensures k == 1 ==> Contains(Concat(BlockLines(kind, posted, amount, fitid, memo)), OpenTag("TRNTYPE") + kind + CloseTag("TRNTYPE"))
    ensures k == 2 ==> Contains(Concat(BlockLines(kind, posted, amount, fitid, memo)), OpenTag("DTPOSTED") + posted + CloseTag("DTPOSTED"))
    ensures k == 3 ==> Contains(Concat(BlockLines(kind, posted, amount, fitid, memo)), OpenTag("TRNAMT") + amount + CloseTag("TRNAMT"))
  {
    var lines := BlockLines(kind, posted, amount, fitid, memo);
    if k == 1 {
      FieldInBlock(lines, 1, "TRNTYPE", kind);
    } else if k == 2 {
      FieldInBlock(lines, 2, "DTPOSTED", posted);
    } else {
      FieldInBlock(lines, 3, "TRNAMT", amount);
    }
  }

  /** The FITID line shows the opening tag followed by any prefix of the FITID. */
  lemma LinesShowFitidPrefix(kind: string, posted: string, amount: string, fitid: string, memo: string, pre: string)
    requires |pre| <= |fitid| && fitid[..|pre|] == pre
    ensures Contains(Concat(BlockLines(kind, posted, amount, fitid, memo)), OpenTag("FITID") + pre)
  {
    FieldPrefixInBlock(BlockLines(kind, posted, amount, fitid, memo), 4, "FITID", fitid, pre);
  }

  /** A block line that is a field shows its element. */
  lemma FieldInBlock(lines: seq<string>, k: nat, tag: string, value: string)
    requires k < |lines| && lines[k] == Field(tag, value)
    ensures Contains(Concat(lines), OpenTag(tag) + value + CloseTag(tag))
  {
    ShowsAfter("\n" + Indent20, OpenTag(tag), value, CloseTag(tag));
    PartShows(lines, k, OpenTag(tag) + value + CloseTag(tag));
  }

  /** A block line that is a field shows the field's opening tag followed by any prefix of its value. */
  lemma FieldPrefixInBlock(lines: seq<string>, k: nat, tag: string, value: string, pre: string)
    requires k < |lines| && lines[k] == Field(tag, value)
    requires |pre| <= |value| && value[..|pre|] == pre
    ensures Contains(Concat(lines), OpenTag(tag) + pre)
  {
    ShowsAfterPrefix("\n" + Indent20, OpenTag(tag), value, CloseTag(tag), pre);
    PartShows(lines, k, OpenTag(tag) + pre);
  }

  // ----- the row loop -----

  /** The movements of the successfully processed rows, in row order. */
  function Records(labels: seq<string>, rows: seq<Row>, cols: Columns): seq<Txn> {
    if rows == [] then []
    else
      Records(labels, rows[..|rows| - 1], cols)
      + match ProcessRow(labels, rows[|rows| - 1], cols)
        case Some(t) => [t]
        case None => []
  }

  /** `f` of each movement, in order. */
  function Each(f: Txn -> string, ts: seq<Txn>): seq<string> {
    seq(|ts|, i requires 0 <= i < |ts| => f(ts[i]))
  }

  /** All blocks, one after the other. */
  function Blocks(ts: seq<Txn>): string {
    Concat(Each(Block, ts))
  }

  /** `create_ofx`: header, then the blocks of the rows that could be read, then footer. */
  method CreateOfx(labels: seq<string>, rows: seq<Row>, cols: Columns) returns (doc: string)
    ensures doc == Header + Blocks(Records(labels, rows, cols)) + Footer
  {
    var transactions := "";
    var i := 0;
    while i < |rows|
      invariant 0 <= i <= |rows|
      invariant transactions == Blocks(Records(labels, rows[..i], cols))
    {
      var rec := ProcessRow(labels, rows[i], cols);
      RecordsStep(labels, rows, i, cols);
      if rec.Some? {
        BlocksAppend(Records(labels, rows[..i], cols), [rec.value]);
        BlockOne(rec.value);
        transactions := transactions + Block(rec.value);
        assert Records(labels, rows[..i + 1], cols) == Records(labels, rows[..i], cols) + [rec.value];
      } else {
        assert Records(labels, rows[..i + 1], cols) == Records(labels, rows[..i], cols);
      }
      i := i + 1;
    }
    assert rows[..|rows|] == rows;
    doc := Header + transactions + Footer;
  }

  /** One more row adds its movement, if it has one, to the end of the records. */
  lemma RecordsStep(labels: seq<string>, rows: seq<Row>, i: nat, cols: Columns)
    requires i < |rows|
    ensures Records(labels, rows[..i + 1], cols)
            == Records(labels, rows[..i], cols)
               + match ProcessRow(labels, rows[i], cols) case Some(t) => [t] case None => []
  {
    assert rows[..i + 1][..i] == rows[..i];
  }

  lemma BlockOne(t: Txn)
    ensures Blocks([t]) == Block(t)
  {
    ConcatOne(Block(t));
  }

  // ----- properties of the document -----

  /** Rows processed in two stretches give the records of the first, then those of the second. */
  lemma {:induction false} RecordsAppend(labels: seq<string>, a: seq<Row>, b: seq<Row>, cols: Columns)
    ensures Records(labels, a + b, cols) == Records(labels, a, cols) + Records(labels, b, cols)
    decreases |b|
  {
    if b == [] {
      assert a + b == a;
    } else {
      assert (a + b)[..|a + b| - 1] == a + b[..|b| - 1];
      RecordsAppend(labels, a, b[..|b| - 1], cols);
    }
  }

  lemma BlocksAppend(x: seq<Txn>, y: seq<Txn>)
    ensures Blocks(x + y) == Blocks(x) + Blocks(y)
  {
    EachAppend(Block, x, y);
    ConcatAppend(Each(Block, x), Each(Block, y));
  }

  lemma EachAppend(f: Txn -> string, x: seq<Txn>, y: seq<Txn>)
    ensures Each(f, x + y) == Each(f, x) + Each(f, y)
  {
    var joined, left, right := Each(f, x + y), Each(f, x), Each(f, y);
    forall i | 0 <= i < |joined|
      ensures joined[i] == (left + right)[i]
    {
      if i < |x| {
        assert (x + y)[i] == x[i];
      } else {
        assert (x + y)[i] == y[i - |x|];
      }
    }
  }

  /** A row that cannot be read contributes nothing, and the rows after it are still processed. */
  lemma SkippedRow(labels: seq<string>, before: seq<Row>, row: Row, after: seq<Row>, cols: Columns)
    requires ProcessRow(labels, row, cols).None?
    ensures Blocks(Records(labels, before + [row] + after, cols))
            == Blocks(Records(labels, before, cols)) + Blocks(Records(labels, after, cols))
  {
    RecordsSkip(labels, before, row, after, cols);
    BlocksAppend(Records(labels, before, cols), Records(labels, after, cols));
  }

  lemma RecordsSkip(labels: seq<string>, before: seq<Row>, row: Row, after: seq<Row>, cols: Columns)
    requires ProcessRow(labels, row, cols).None?
    ensures Records(labels, before + [row] + after, cols) == Records(labels, before, cols) + Records(labels, after, cols)
  {
    RecordsAppend(labels, before + [row], after, cols);
    RecordsAppend(labels, before, [row], cols);
    RecordsStep(labels, [row], 0, cols);
    assert [row][..1] == [row] && [row][..0] == [];
    var front := Records(labels, before, cols);
    assert front + [] == front;
  }

  /** Positions of the rows that can be read, in increasing order. */
  function ReadableRows(labels: seq<string>, rows: seq<Row>, cols: Columns): seq<nat> {
    if rows == [] then []
    else
      ReadableRows(labels, rows[..|rows| - 1], cols)
      + if ProcessRow(labels, rows[|rows| - 1], cols).Some? then [|rows| - 1] else []
  }

  /**
   * The records are exactly the readable rows' movements, in row order: the
   * k-th record comes from the k-th readable row, readable rows are listed in
   * increasing position, and a row is listed exactly when it can be read.
   */
  lemma RecordsInRowOrder(labels: seq<string>, rows: seq<Row>, cols: Columns)
    ensures var idx := ReadableRows(labels, rows, cols);
            |idx| == |Records(labels, rows, cols)|
            && (forall k :: 0 <= k < |idx| ==>
                  (idx[k] < |rows| && ProcessRow(labels, rows[idx[k]], cols) == Some(Records(labels, rows, cols)[k])))
            && (forall k, l :: 0 <= k < l < |idx| ==> idx[k] < idx[l])
            && (forall i :: 0 <= i < |rows| ==> (i in idx <==> ProcessRow(labels, rows[i], cols).Some?))
  {
    RecordsFromReadableRows(labels, rows, cols);
    ReadableRowsIncreasing(labels, rows, cols);
    ReadableRowsExactly(labels, rows, cols);
  }

  lemma {:induction false} RecordsFromReadableRows(labels: seq<string>, rows: seq<Row>, cols: Columns)
    ensures var idx := ReadableRows(labels, rows, cols);
            |idx| == |Records(labels, rows, cols)|
            && forall k :: 0 <= k < |idx| ==>
                 (idx[k] < |rows| && ProcessRow(labels, rows[idx[k]], cols) == Some(Records(labels, rows, cols)[k]))
    decreases |rows|
  {
    if rows != [] {
      var n := |rows| - 1;
      var front := rows[..n];
      RecordsFromReadableRows(labels, front, cols);
      var idx0 := ReadableRows(labels, front, cols);
      assert forall k :: 0 <= k < |idx0| ==> front[idx0[k]] == rows[idx0[k]];
    }
  }

  lemma {:induction false} ReadableRowsIncreasing(labels: seq<string>, rows: seq<Row>, cols: Columns)
    ensures forall k :: 0 <= k < |ReadableRows(labels, rows, cols)| ==> ReadableRows(labels, rows, cols)[k] < |rows|
    ensures forall k, l :: 0 <= k < l < |ReadableRows(labels, rows, cols)| ==>
              ReadableRows(labels, rows, cols)[k] < ReadableRows(labels, rows, cols)[l]
    decreases |rows|
  {
    if rows != [] {
      var n := |rows| - 1;
      ReadableRowsIncreasing(labels, rows[..n], cols);
      var idx0 := ReadableRows(labels, rows[..n], cols);
      var idx := ReadableRows(labels, rows, cols);
      assert idx == idx0 || idx == idx0 + [n];
      assert forall k :: 0 <= k < |idx| ==> idx[k] == (if k < |idx0| then idx0[k] else n);
    }
  }

  lemma {:induction false} ReadableRowsExactly(labels: seq<string>, rows: seq<Row>, cols: Columns)
    ensures forall i :: 0 <= i < |rows| ==>
              (i in ReadableRows(labels, rows, cols) <==> ProcessRow(labels, rows[i], cols).Some?)
    decreases |rows|
  {
    if rows != [] {
      var n := |rows| - 1;
      var front := rows[..n];
      ReadableRowsExactly(labels, front, cols);
      ReadableRowsIncreasing(labels, front, cols);
      assert forall i :: 0 <= i < n ==> front[i] == rows[i];
      var idx0 := ReadableRows(labels, front, cols);
      assert n !in idx0;
      assert forall i :: i in ReadableRows(labels, rows, cols) <==> i in idx0 || (i == n && ProcessRow(labels, rows[n], cols).Some?);
    }
  }

  /** The document body is empty exactly when no row can be read. */
  lemma EmptyBodyIffNoReadableRow(labels: seq<string>, rows: seq<Row>, cols: Columns)
    ensures Blocks(Records(labels, rows, cols)) == ""
            <==> forall i :: 0 <= i < |rows| ==> ProcessRow(labels, rows[i], cols).None?
  {
    RecordsEmpty(labels, rows, cols);
    BlocksEmpty(Records(labels, rows, cols));
  }

  /** There are no records exactly when no row can be read. */
  lemma {:induction false} RecordsEmpty(labels: seq<string>, rows: seq<Row>, cols: Columns)
    ensures Records(labels, rows, cols) == []
            <==> forall i :: 0 <= i < |rows| ==> ProcessRow(labels, rows[i], cols).None?
    decreases |rows|
  {
    if rows != [] {
      var n := |rows| - 1;
      var front := rows[..n];
      RecordsEmpty(labels, front, cols);
      assert forall i :: 0 <= i < n ==> front[i] == rows[i];
    }
  }

  /** Only the empty list of movements gives no text. */
  lemma BlocksEmpty(ts: seq<Txn>)
    ensures Blocks(ts) == "" <==> ts == []
  {
    if ts != [] {
      assert ts == [ts[0]] + ts[1..];
      BlocksAppend([ts[0]], ts[1..]);
      BlockOne(ts[0]);
      BlockNonEmpty(ts[0]);
    }
  }

  /** With no rows, or none readable, the document is the header followed by the footer. */
  lemma EnvelopeOnly(labels: seq<string>, rows: seq<Row>, cols: Columns)
    requires forall i :: 0 <= i < |rows| ==> ProcessRow(labels, rows[i], cols).None?
    ensures Header + Blocks(Records(labels, rows, cols)) + Footer == Header + Footer
  {
    EmptyBodyIffNoReadableRow(labels, rows, cols);
    Unframed(Header, Blocks(Records(labels, rows, cols)), Footer);
  }

  lemma Unframed(head: string, body: string, foot: string)
    requires body == ""
    ensures head + body + foot == head + foot
  {
    assert head + body == head;
  }
}
