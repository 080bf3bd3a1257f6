/**
 * The collector lambda (web-scraper/lambda_function.py) once the HTML has
 * been reduced to a list of header texts and a list of rows of cell texts:
 * the dollar and date extraction, the two row converters, `get_rows`, the
 * CSV buffer built by `to_csv`, and the two jobs that name and fill the blobs
 * they upload.
 *
 * `float()`, `datetime.strptime(..., '%m/%d/%Y')` and the text `csv.writer`
 * writes for a float are library code: they are given as the fields of a
 * `Runtime` value, so every property here holds whatever they do.
 */
module Scraper {
  import opened Wrappers
  import opened PyStr
  import opened CsvDialect
  import opened ObjectStore

  /** The exceptions the row converters can raise. */
  datatype PyError = IndexError | ValueError

  /** A `datetime` as `strptime` returns it for a `'%m/%d/%Y'` format: midnight of a day. */
  datatype DateTime = DateTime(year: nat, month: nat, day: nat)

  /** A converted cell: text left as it is, a float, or a datetime. */
  datatype Cell = Str(text: string) | Num(value: real) | Stamp(date: DateTime)

  /**
   * The library calls the converters make: `float(s)` and `strptime(s, '%m/%d/%Y')`
   * (None stands for the ValueError they raise), and `repr` of a float, which
   * is what `csv.writer` writes for one.
   */
  datatype Runtime = Runtime(
    toFloat: string -> Option<real>,
    parseDate: string -> Option<DateTime>,
    floatRepr: real -> string)

  // ------------------------------------------------------------ dollar2float

  /** Length of the run of ASCII digits that starts at `p`. */
  function DigitRun(s: string, p: nat): (n: nat)
    requires p <= |s|
    ensures p + n <= |s|
    ensures forall k :: p <= k < p + n ==> IsDigit(s[k])
    ensures p + n < |s| ==> !IsDigit(s[p + n])
    decreases |s| - p
  {
    if p < |s| && IsDigit(s[p]) then 1 + DigitRun(s, p + 1) else 0
  }

  /** `[0-9]*\.[0-9]*` matches at `p`: the digit run from `p` is followed by `.`. */
  predicate DecimalAt(s: string, p: nat)
    requires p <= |s|
  {
    p + DigitRun(s, p) < |s| && s[p + DigitRun(s, p)] == '.'
  }

  /** The leftmost position at or after `p` where `[0-9]*\.[0-9]*` matches. */
  function FindDecimal(s: string, p: nat): (r: Option<nat>)
    requires p <= |s|
    ensures r.Some? ==> p <= r.value < |s| && DecimalAt(s, r.value)
    ensures r.Some? ==> forall k :: p <= k < r.value ==> !DecimalAt(s, k)
    ensures r.None? ==> forall k :: p <= k <= |s| ==> !DecimalAt(s, k)
    decreases |s| - p
  {
    if p == |s| then None
    else if DecimalAt(s, p) then Some(p)
    else FindDecimal(s, p + 1)
  }

  /** The value of a string of decimal digits. */
  function Digits(s: string): (n: nat)
    requires AllDigits(s)
  {
    if s == [] then 0 else 10 * Digits(s[..|s| - 1]) + (s[|s| - 1] as int - '0' as int)
  }

  function Pow10(n: nat): (r: nat)
    ensures r >= 1
  {
    if n == 0 then 1 else 10 * Pow10(n - 1)
  }

  /** The exact value of the decimal `whole.frac`. */
  function DecimalValue(whole: string, frac: string): real
    requires AllDigits(whole) && AllDigits(frac)
  {
    Digits(whole) as real + Digits(frac) as real / Pow10(|frac|) as real
  }

  /**
   * `dollar2float(s)`: the exact value of the first `digits.digits` match, 0.0
   * when there is none, and the ValueError of `float('.')` when the first
   * match is a bare dot.
   */
  function Dollar2Float(s: string): Result<real, PyError>
  {
    match FindDecimal(s, 0)
    case None => Success(0.0)
    case Some(p) =>
      var w := DigitRun(s, p);
      var f := DigitRun(s, p + w + 1);
      if w == 0 && f == 0 then Failure(ValueError)
      else Success(DecimalValue(s[p..p + w], s[p + w + 1..p + w + 1 + f]))
  }

  /** Without a dot there is no match, and the result is 0.0. */
  lemma Dollar2FloatNoDot(s: string)
    requires '.' !in s
    ensures Dollar2Float(s) == Success(0.0)
  {
    forall k | 0 <= k <= |s| ensures !DecimalAt(s, k) {
      var e := k + DigitRun(s, k);
      if e < |s| {
        assert s[e] in s;
      }
    }
  }

  /** A digit run that starts before a non-digit ends before it. */
  lemma {:induction false} RunBound(s: string, k: nat, n: nat)
    requires k < n <= |s| && !IsDigit(s[n - 1])
    ensures k + DigitRun(s, k) <= n - 1
    decreases n - k
  {
    if IsDigit(s[k]) {
      RunBound(s, k + 1, n);
    }
  }

  /** No match starts inside a prefix that holds no dot and does not end in a digit. */
  lemma NoDecimalInPrefix(s: string, n: nat, k: nat)
    requires n <= |s| && k < n
    requires forall i :: 0 <= i < n ==> s[i] != '.'
    requires !IsDigit(s[n - 1])
    ensures !DecimalAt(s, k)
  {
    RunBound(s, k, n);
  }

  lemma {:induction false} DigitRunExact(s: string, p: nat, n: nat)
    requires p + n <= |s|
    requires forall k :: p <= k < p + n ==> IsDigit(s[k])
    requires p + n < |s| ==> !IsDigit(s[p + n])
    ensures DigitRun(s, p) == n
    decreases n
  {
    if n > 0 {
      DigitRunExact(s, p + 1, n - 1);
    }
  }

  /**
   * The value of the first `digits.digits` substring: when `s[p..]` is `w`
   * digits, a dot and `f` digits, not both runs empty, the `s[..p]` before it
   * holds no dot and does not end in a digit, and no digit follows the match.
   */
  lemma Dollar2FloatValue(s: string, p: nat, w: nat, f: nat)
    requires p + w + 1 + f <= |s| && (w > 0 || f > 0)
    requires forall i :: 0 <= i < p ==> s[i] != '.'
    requires p > 0 ==> !IsDigit(s[p - 1])
    requires forall i :: p <= i < p + w ==> IsDigit(s[i])
    requires s[p + w] == '.'
    requires forall i :: p + w + 1 <= i < p + w + 1 + f ==> IsDigit(s[i])
    requires p + w + 1 + f < |s| ==> !IsDigit(s[p + w + 1 + f])
    ensures AllDigits(s[p..p + w]) && AllDigits(s[p + w + 1..p + w + 1 + f])
    ensures Dollar2Float(s) == Success(DecimalValue(s[p..p + w], s[p + w + 1..p + w + 1 + f]))
  {
    var ws, fs := s[p..p + w], s[p + w + 1..p + w + 1 + f];
    forall k | 0 <= k < w ensures IsDigit(ws[k]) {
      assert ws[k] == s[p + k];
    }
    forall k | 0 <= k < f ensures IsDigit(fs[k]) {
      assert fs[k] == s[p + w + 1 + k];
    }
    MatchPosition(s, p, w, f);
    Dollar2FloatAt(s, p, w, f);
  }

  lemma Dollar2FloatAt(s: string, p: nat, w: nat, f: nat)
    requires FindDecimal(s, 0) == Some(p)
    requires DigitRun(s, p) == w && DigitRun(s, p + w + 1) == f && (w > 0 || f > 0)
    ensures p + w + 1 + f <= |s|
    ensures Dollar2Float(s) == Success(DecimalValue(s[p..p + w], s[p + w + 1..p + w + 1 + f]))
  {
  }

  /** Where the first match of a string laid out as in Dollar2FloatValue sits. */
  lemma MatchPosition(s: string, p: nat, w: nat, f: nat)
    requires p + w + 1 + f <= |s|
    requires forall i :: 0 <= i < p ==> s[i] != '.'
    requires p > 0 ==> !IsDigit(s[p - 1])
    requires forall i :: p <= i < p + w ==> IsDigit(s[i])
    requires s[p + w] == '.'
    requires forall i :: p + w + 1 <= i < p + w + 1 + f ==> IsDigit(s[i])
    requires p + w + 1 + f < |s| ==> !IsDigit(s[p + w + 1 + f])
    ensures FindDecimal(s, 0) == Some(p)
    ensures DigitRun(s, p) == w && DigitRun(s, p + w + 1) == f
  {
    forall k | 0 <= k < p ensures !DecimalAt(s, k) {
      NoDecimalInPrefix(s, p, k);
    }
    DigitRunExact(s, p, w);
    DigitRunExact(s, p + w + 1, f);
    FindDecimalFrom(s, 0, p);
  }

  lemma FindDecimalFrom(s: string, q: nat, p: nat)
    requires q <= p < |s| && DecimalAt(s, p)
    requires forall k :: q <= k < p ==> !DecimalAt(s, k)
    ensures FindDecimal(s, q) == Some(p)
  {
    var r := FindDecimal(s, q);
    assert r.Some? && r.value <= p;
  }

  lemma NoCents()
    ensures Dollar2Float("$10") == Success(0.0)
  {
    assert forall k :: 0 <= k < |"$10"| ==> "$10"[k] != '.';
    Dollar2FloatNoDot("$10");
  }

  lemma NotAvailable()
    ensures Dollar2Float("N/A") == Success(0.0)
  {
    assert forall k :: 0 <= k < |"N/A"| ==> "N/A"[k] != '.';
    Dollar2FloatNoDot("N/A");
  }

  /** "$10.00" is 10.0. */
  lemma TenDollars(s: string)
    requires s == "$10.00"
    ensures Dollar2Float(s) == Success(10.0)
  {
    PriceAfter(s, "$", "10", "00");
    TwoDigits("10");
    TwoDigits("00");
  }

  /** "$12.50" is 12.5. */
  lemma TwelveFifty(s: string)
    requires s == "$12.50"
    ensures Dollar2Float(s) == Success(12.5)
  {
    PriceAfter(s, "$", "12", "50");
    TwoDigits("12");
    TwoDigits("50");
  }

  /** The first match wins: in "$1,000.00" it is "000.00", whose value is 0.0. */
  lemma ThousandDollars(s: string)
    requires s == "$1,000.00"
    ensures Dollar2Float(s) == Success(0.0)
  {
    PriceAfter(s, "$1,", "000", "00");
    TwoDigits("00");
    assert Digits("000") == 0 by {
      assert "000"[..2] == "00";
    }
  }

  /**
   * A price after text without a dot that does not end in a digit: the value
   * is that of the whole and fractional digits.
   */
  lemma PriceAfter(s: string, before: string, whole: string, frac: string)
    requires s == before + whole + "." + frac
    requires '.' !in before && (before != [] ==> !IsDigit(before[|before| - 1]))
    requires AllDigits(whole) && AllDigits(frac) && (whole != [] || frac != [])
    ensures Dollar2Float(s) == Success(DecimalValue(whole, frac))
  {
    var p, w, f := |before|, |whole|, |frac|;
    assert |s| == p + w + 1 + f;
    assert s[p..p + w] == whole && s[p + w] == '.' && s[p + w + 1..p + w + 1 + f] == frac;
    forall i | 0 <= i < p ensures s[i] != '.' {
      assert s[i] == before[i];
    }
    if p > 0 {
      assert s[p - 1] == before[p - 1];
    }
    forall i | p <= i < p + w ensures IsDigit(s[i]) {
      assert s[i] == whole[i - p];
    }
    forall i | p + w + 1 <= i < p + w + 1 + f ensures IsDigit(s[i]) {
      assert s[i] == frac[i - (p + w + 1)];
    }
    Dollar2FloatValue(s, p, w, f);
  }

  /** The value of two digits. */
  lemma TwoDigits(d: string)
    requires |d| == 2 && AllDigits(d)
    ensures Digits(d) == 10 * (d[0] as int - '0' as int) + (d[1] as int - '0' as int)
  {
    assert d[..1][..0] == [];
    assert Digits(d[..1]) == d[0] as int - '0' as int;
  }

  /** A first match that is a bare dot, as in "N.A.", makes `float('.')` raise. */
  lemma Dollar2FloatBareDot()
    ensures Dollar2Float("N.A.") == Failure(ValueError)
  {
    var s := "N.A.";
    assert !DecimalAt(s, 0);
    assert DigitRun(s, 1) == 0 && DigitRun(s, 2) == 0;
    assert FindDecimal(s, 0) == Some(1);
  }

  // ------------------------------------------------------------ date regex

  /** A run of one or two digits at `p` followed by `/`: `[0-9]{1,2}\/`. */
  predicate ShortNumberAt(s: string, p: nat)
    requires p <= |s|
  {
    var n := DigitRun(s, p);
    1 <= n <= 2 && p + n < |s| && s[p + n] == '/'
  }

  /** `[0-9]{1,2}\/[0-9]{1,2}\/[0-9]{2,4}` matches at `p`. */
  predicate DateAt(s: string, p: nat)
    requires p <= |s|
  {
    ShortNumberAt(s, p)
    && var q := p + DigitRun(s, p) + 1;
    ShortNumberAt(s, q)
    && DigitRun(s, q + DigitRun(s, q) + 1) >= 2
  }

  /** The text of a date match at `p`; the year part takes at most four digits. */
  function DateMatch(s: string, p: nat): (m: string)
    requires p <= |s| && DateAt(s, p)
  {
    var q := p + DigitRun(s, p) + 1;
    var y := q + DigitRun(s, q) + 1;
    var n := if DigitRun(s, y) < 4 then DigitRun(s, y) else 4;
    s[p..y + n]
  }

  /** Where the first date match at or after `p` starts. */
  function FindDateAt(s: string, p: nat): (r: Option<nat>)
    requires p <= |s|
    ensures r.Some? ==> p <= r.value <= |s| && DateAt(s, r.value)
    ensures r.Some? ==> forall k :: p <= k < r.value ==> !DateAt(s, k)
    ensures r.None? ==> forall k :: p <= k <= |s| ==> !DateAt(s, k)
    decreases |s| - p
  {
    if DateAt(s, p) then Some(p)
    else if p == |s| then None
    else FindDateAt(s, p + 1)
  }

  lemma FindDateFrom(s: string, q: nat, p: nat)
    requires q <= p <= |s| && DateAt(s, p)
    requires forall k :: q <= k < p ==> !DateAt(s, k)
    ensures FindDateAt(s, q) == Some(p)
  {
    var r := FindDateAt(s, q);
    assert r.Some? && r.value <= p;
  }

  /** `re.findall(date_pattern, s)[0]`, None when the list is empty (the IndexError). */
  function FindDate(s: string): Option<string>
  {
    match FindDateAt(s, 0)
    case None => None
    case Some(k) => Some(DateMatch(s, k))
  }

  /**
   * A cell whose first digit starts a date of `a`- and `b`-digit month and day
   * and a `c`-digit year: the converter takes that date, its year cut to four digits.
   */
  lemma DateAfterText(s: string, p: nat, a: nat, b: nat, c: nat)
    requires p + a + b + 2 + c <= |s| && 1 <= a <= 2 && 1 <= b <= 2 && c >= 2
    requires forall k :: 0 <= k < p ==> !IsDigit(s[k])
    requires forall k :: p <= k < p + a ==> IsDigit(s[k])
    requires s[p + a] == '/'
    requires forall k :: p + a + 1 <= k < p + a + 1 + b ==> IsDigit(s[k])
    requires s[p + a + 1 + b] == '/'
    requires forall k :: p + a + b + 2 <= k < p + a + b + 2 + c ==> IsDigit(s[k])
    requires p + a + b + 2 + c < |s| ==> !IsDigit(s[p + a + b + 2 + c])
    ensures FindDate(s) == Some(s[p..p + a + b + 2 + Min(c, 4)])
  {
    NoDateBefore(s, p);
    DigitRunExact(s, p, a);
    DigitRunExact(s, p + a + 1, b);
    DigitRunExact(s, p + a + b + 2, c);
    DateAtParts(s, p, a, b, c);
    FindDateFrom(s, 0, p);
  }

  /** A trade-date cell of the calendar page: the date is what follows "Week of ". */
  lemma WeekOfDate(s: string)
    requires s == "Week of 7/19/2021"
    ensures FindDate(s) == Some(s[8..])
  {
    WeekOfDateLayout(s);
    DateAfterText(s, 8, 1, 2, 4);
    assert s[8..8 + 1 + 2 + 2 + Min(4, 4)] == s[8..];
  }

  /** Where the parts of the date in "Week of 7/19/2021" sit. */
  lemma WeekOfDateLayout(s: string)
    requires s == "Week of 7/19/2021"
    ensures |s| == 17
    ensures forall k :: 0 <= k < 8 ==> !IsDigit(s[k])
    ensures IsDigit(s[8]) && s[9] == '/' && IsDigit(s[10]) && IsDigit(s[11]) && s[12] == '/'
    ensures forall k :: 13 <= k < 17 ==> IsDigit(s[k])
  {
  }

  /** A cell without a date: `findall` is empty, so the converter's `[0]` raises. */
  lemma NoDate()
    ensures FindDate("TBA") == None
  {
    NoDateBefore("TBA", 3);
    DigitRunExact("TBA", 3, 0);
  }

  /** No date match starts among leading characters that are not digits. */
  lemma NoDateBefore(s: string, n: nat)
    requires n <= |s| && forall k :: 0 <= k < n ==> !IsDigit(s[k])
    ensures forall k :: 0 <= k < n ==> !DateAt(s, k)
  {
    forall k | 0 <= k < n ensures !DateAt(s, k) {
      DigitRunExact(s, k, 0);
    }
  }

  /** A date match of one- or two-digit month and day and a year of `c` digits. */
  lemma DateAtParts(s: string, p: nat, a: nat, b: nat, c: nat)
    requires p + a + b + 2 + c <= |s| && 1 <= a <= 2 && 1 <= b <= 2 && c >= 2
    requires DigitRun(s, p) == a && s[p + a] == '/'
    requires DigitRun(s, p + a + 1) == b && s[p + a + 1 + b] == '/'
    requires DigitRun(s, p + a + b + 2) == c
    ensures DateAt(s, p)
    ensures DateMatch(s, p) == s[p..p + a + b + 2 + Min(c, 4)]
  {
  }


  // ------------------------------------------------------------ row converters

  function Min(a: nat, b: nat): nat {
    if a < b then a else b
  }

  /** `last_100_row_func`: the first seven cells, with the date, share count and two prices converted. */
  function Last100Row(row: seq<string>, rt: Runtime): (r: Result<seq<Cell>, PyError>)
    ensures r.Success? <==>
              |row| >= 7 && rt.parseDate(row[3]).Some? && rt.toFloat(row[4]).Some?
              && Dollar2Float(row[5]).Success? && Dollar2Float(row[6]).Success?
    ensures |row| < 4 ==> r == Failure(IndexError)
    ensures r.Success? ==>
              && |r.value| == 7
              && (forall i :: 0 <= i < 3 ==> r.value[i] == Str(row[i]))
              && r.value[3] == Stamp(rt.parseDate(row[3]).value)
              && r.value[4] == Num(rt.toFloat(row[4]).value)
              && r.value[5] == Num(Dollar2Float(row[5]).value)
              && r.value[6] == Num(Dollar2Float(row[6]).value)
  {
    var cells := row[..Min(7, |row|)];
    if |cells| < 4 then Failure(IndexError)
    else
      match rt.parseDate(cells[3])
      case None => Failure(ValueError)
      case Some(date) =>
        if |cells| < 5 then Failure(IndexError)
        else
          match rt.toFloat(cells[4])
          case None => Failure(ValueError)
          case Some(shares) =>
            if |cells| < 6 then Failure(IndexError)
            else
              var offer :- Dollar2Float(cells[5]);
              if |cells| < 7 then Failure(IndexError)
              else
                var close :- Dollar2Float(cells[6]);
                Success([Str(cells[0]), Str(cells[1]), Str(cells[2]),
                         Stamp(date), Num(shares), Num(offer), Num(close)])
  }

  /**
   * `upcoming_ipo_row_func`: the first eight cells, with the share count and
   * the price range converted and the trade date taken from the first
   * date-shaped substring of cell 7.
   */
  function UpcomingRow(row: seq<string>, rt: Runtime): (r: Result<seq<Cell>, PyError>)
    ensures r.Success? <==>
              |row| >= 8 && rt.toFloat(row[3]).Some?
              && Dollar2Float(row[4]).Success? && Dollar2Float(row[5]).Success?
              && FindDate(row[7]).Some? && rt.parseDate(FindDate(row[7]).value).Some?
    ensures |row| < 4 ==> r == Failure(IndexError)
    ensures (|row| >= 8 && rt.toFloat(row[3]).Some? && Dollar2Float(row[4]).Success?
             && Dollar2Float(row[5]).Success? && FindDate(row[7]).None?) ==> r == Failure(IndexError)
    ensures r.Success? ==>
              && |r.value| == 8
              && (forall i :: 0 <= i < 3 ==> r.value[i] == Str(row[i]))
              && r.value[3] == Num(rt.toFloat(row[3]).value)
              && r.value[4] == Num(Dollar2Float(row[4]).value)
              && r.value[5] == Num(Dollar2Float(row[5]).value)
              && r.value[6] == Str(row[6])
              && r.value[7] == Stamp(rt.parseDate(FindDate(row[7]).value).value)
  {
    var cells := row[..Min(8, |row|)];
    if |cells| < 4 then Failure(IndexError)
    else
      match rt.toFloat(cells[3])
      case None => Failure(ValueError)
      case Some(shares) =>
        if |cells| < 5 then Failure(IndexError)
        else
          var low :- Dollar2Float(cells[4]);
          if |cells| < 6 then Failure(IndexError)
          else
            var high :- Dollar2Float(cells[5]);
            if |cells| < 8 then Failure(IndexError)
            else
              match FindDate(cells[7])
              case None => Failure(IndexError)
              case Some(text) =>
                match rt.parseDate(text)
                case None => Failure(ValueError)
                case Some(date) =>
                  Success([Str(cells[0]), Str(cells[1]), Str(cells[2]), Num(shares),
                           Num(low), Num(high), Str(cells[6]), Stamp(date)])
  }

  /** The cells of a row, all still text. */
  function Texts(row: seq<string>): (r: seq<Cell>)
    ensures |r| == |row| && forall i :: 0 <= i < |row| ==> r[i] == Str(row[i])
  {
    seq(|row|, i requires 0 <= i < |row| => Str(row[i]))
  }

  /** `last_100_row_func` as written: a sliced copy whose cells are overwritten one by one. */
  method Last100RowFunc(row: seq<string>, rt: Runtime) returns (r: Result<seq<Cell>, PyError>)
    ensures r == Last100Row(row, rt)
  {
    var text := row[..Min(7, |row|)];
    var cells := Texts(text);
    if |cells| < 4 {
      return Failure(IndexError);
    }
    var date := rt.parseDate(text[3]);
    if date.None? {
      return Failure(ValueError);
    }
    cells := cells[3 := Stamp(date.value)];
    if |cells| < 5 {
      return Failure(IndexError);
    }
    var shares := rt.toFloat(text[4]);
    if shares.None? {
      return Failure(ValueError);
    }
    cells := cells[4 := Num(shares.value)];
    if |cells| < 6 {
      return Failure(IndexError);
    }
    var offer := Dollar2Float(text[5]);
    if offer.Failure? {
      return Failure(offer.error);
    }
    cells := cells[5 := Num(offer.value)];
    if |cells| < 7 {
      return Failure(IndexError);
    }
    var close := Dollar2Float(text[6]);
    if close.Failure? {
      return Failure(close.error);
    }
    cells := cells[6 := Num(close.value)];
    assert cells == [Str(text[0]), Str(text[1]), Str(text[2]),
                     Stamp(date.value), Num(shares.value), Num(offer.value), Num(close.value)];
    return Success(cells);
  }

  /** `upcoming_ipo_row_func` as written, on a sliced copy of the row. */
  method UpcomingRowFunc(row: seq<string>, rt: Runtime) returns (r: Result<seq<Cell>, PyError>)
    ensures r == UpcomingRow(row, rt)
  {
    var text := row[..Min(8, |row|)];
    var cells := Texts(text);
    if |cells| < 4 {
      return Failure(IndexError);
    }
    var shares := rt.toFloat(text[3]);
    if shares.None? {
      return Failure(ValueError);
    }
    cells := cells[3 := Num(shares.value)];
    if |cells| < 5 {
      return Failure(IndexError);
    }
    var low := Dollar2Float(text[4]);
    if low.Failure? {
      return Failure(low.error);
    }
    cells := cells[4 := Num(low.value)];
    if |cells| < 6 {
      return Failure(IndexError);
    }
    var high := Dollar2Float(text[5]);
    if high.Failure? {
      return Failure(high.error);
    }
    cells := cells[5 := Num(high.value)];
    if |cells| < 8 {
      return Failure(IndexError);
    }
    var found := FindDate(text[7]);
    if found.None? {
      return Failure(IndexError);
    }
    var date := rt.parseDate(found.value);
    if date.None? {
      return Failure(ValueError);
    }
    cells := cells[7 := Stamp(date.value)];
    assert cells == [Str(text[0]), Str(text[1]), Str(text[2]), Num(shares.value),
                     Num(low.value), Num(high.value), Str(text[6]), Stamp(date.value)];
    return Success(cells);
  }

  // ------------------------------------------------------------ get_rows

  /** `td.text.strip()` for every cell of a row. */
  function StripCells(cells: seq<string>): (r: seq<string>)
    ensures |r| == |cells|
    ensures forall i :: 0 <= i < |cells| ==> r[i] == Strip(cells[i], IsSpace)
  {
    seq(|cells|, i requires 0 <= i < |cells| => Strip(cells[i], IsSpace))
  }

  /**
   * `get_rows`: the converter applied to every stripped row, in order; the
   * first failure aborts the whole call with that failure.
   */
  method GetRows(table: seq<seq<string>>, rowFunc: seq<string> -> Result<seq<Cell>, PyError>)
    returns (r: Result<seq<seq<Cell>>, PyError>)
    ensures r.Success? <==> forall i :: 0 <= i < |table| ==> rowFunc(StripCells(table[i])).Success?
    ensures r.Success? ==> |r.value| == |table|
    ensures r.Success? ==> forall i :: 0 <= i < |table| ==> r.value[i] == rowFunc(StripCells(table[i])).value
    ensures r.Failure? ==> exists k :: 0 <= k < |table| && rowFunc(StripCells(table[k])) == Failure(r.error)
                                       && forall i :: 0 <= i < k ==> rowFunc(StripCells(table[i])).Success?
  {
    var rows: seq<seq<Cell>> := [];
    var i := 0;
    while i < |table|
      invariant 0 <= i <= |table|
      invariant |rows| == i
      invariant forall j :: 0 <= j < i ==> rowFunc(StripCells(table[j])).Success?
      invariant forall j :: 0 <= j < i ==> rows[j] == rowFunc(StripCells(table[j])).value
    {
      var row := rowFunc(StripCells(table[i]));
      if row.Failure? {
        return Failure(row.error);
      }
      rows := rows + [row.value];
      i := i + 1;
    }
    return Success(rows);
  }

  // ------------------------------------------------------------ to_csv

  lemma CrlfJoinSnoc(lines: seq<string>, line: string)
    ensures CrlfJoin(lines + [line]) == CrlfJoin(lines) + line + "\r\n"
  {
    if lines == [] {
      assert [line][1..] == [];
    } else {
      assert (lines + [line])[1..] == lines[1..] + [line];
      CrlfJoinSnoc(lines[1..], line);
    }
  }

  lemma CsvTextSnoc(records: seq<seq<string>>, record: seq<string>)
    ensures CsvText(records + [record]) == CsvText(records) + FormatRecord(record) + "\r\n"
  {
    assert FormatRecords(records + [record]) == FormatRecords(records) + [FormatRecord(record)];
    CrlfJoinSnoc(FormatRecords(records), FormatRecord(record));
  }

  /**
   * `to_csv`: the header record, then one record per row, each written with
   * minimal quoting and terminated by "\r\n", appended to one buffer.
   */
  method ToCsv(headers: seq<string>, rows: seq<seq<string>>) returns (text: string)
    ensures text == CsvText([headers] + rows)
  {
    text := FormatRecord(headers) + "\r\n";
    CsvTextGrows(headers, rows, 0);
    var i := 0;
    while i < |rows|
      invariant 0 <= i <= |rows|
      invariant text == CsvText([headers] + rows[..i])
    {
      CsvTextGrows(headers, rows, i + 1);
      text := text + FormatRecord(rows[i]) + "\r\n";
      i := i + 1;
    }
    assert rows[..i] == rows;
  }

  /** The buffer after the header and `i` rows: the one before the last row, and that row's line. */
  lemma CsvTextGrows(headers: seq<string>, rows: seq<seq<string>>, i: nat)
    requires i <= |rows|
    ensures i == 0 ==> CsvText([headers] + rows[..i]) == FormatRecord(headers) + "\r\n"
    ensures i > 0 ==> CsvText([headers] + rows[..i])
                      == CsvText([headers] + rows[..i - 1]) + FormatRecord(rows[i - 1]) + "\r\n"
  {
    if i == 0 {
      CsvTextSnoc([], headers);
      assert [headers] + rows[..i] == [] + [headers];
    } else {
      CsvTextSnoc([headers] + rows[..i - 1], rows[i - 1]);
      assert [headers] + rows[..i] == [headers] + rows[..i - 1] + [rows[i - 1]];
    }
  }

  // ------------------------------------------------------------ jobs

  /** `'%02d'`-style decimal text of `n`, zero-padded to `width` digits. */
  function Decimal(n: nat, width: nat): (r: string)
    ensures |r| >= width && AllDigits(r)
    decreases n + width
  {
    if n < 10 && width <= 1 then [('0' as int + n) as char]
    else Decimal(n / 10, if width > 0 then width - 1 else 0) + [('0' as int + n % 10) as char]
  }

  /** `str(datetime)` for a midnight value: "YYYY-MM-DD 00:00:00". */
  function DateText(d: DateTime): string
  {
    Decimal(d.year, 4) + "-" + Decimal(d.month, 2) + "-" + Decimal(d.day, 2) + " 00:00:00"
  }

  /** The text `csv.writer` writes for a cell. */
  function Render(c: Cell, rt: Runtime): string
  {
    match c
    case Str(s) => s
    case Num(x) => rt.floatRepr(x)
    case Stamp(d) => DateText(d)
  }

  function RenderRow(row: seq<Cell>, rt: Runtime): (r: seq<string>)
    ensures |r| == |row|
    ensures forall i :: 0 <= i < |row| ==> r[i] == Render(row[i], rt)
  {
    seq(|row|, i requires 0 <= i < |row| => Render(row[i], rt))
  }

  function RenderRows(rows: seq<seq<Cell>>, rt: Runtime): (r: seq<seq<string>>)
    ensures |r| == |rows|
    ensures forall i :: 0 <= i < |rows| ==> r[i] == RenderRow(rows[i], rt)
  {
    seq(|rows|, i requires 0 <= i < |rows| => RenderRow(rows[i], rt))
  }

  /** The blob names the two jobs upload under; `uuid` is the text of `uuid.uuid4()`. */
  function UpcomingBlobName(uuid: string): (name: string)
    ensures StartsWith(name, "upcoming") && name[|name| - 4..] == ".csv"
  {
    "upcoming_ipos" + uuid + ".csv"
  }

  function Last100BlobName(uuid: string): (name: string)
    ensures StartsWith(name, "last_100") && name[|name| - 4..] == ".csv"
  {
    "last_100_ipos" + uuid + ".csv"
  }

  /**
   * `upcoming_ipos`, from the scraped header texts and cell texts to the blob
   * it uploads: headers cut to eight, rows converted, CSV text under an
   * `upcoming_ipos…csv` name.
   */
  method UpcomingIpos(headers: seq<string>, table: seq<seq<string>>, uuid: string, rt: Runtime)
    returns (r: Result<Blob, PyError>)
    ensures r.Success? <==> forall i :: 0 <= i < |table| ==> UpcomingRow(StripCells(table[i]), rt).Success?
    ensures r.Success? ==> r.value.key == UpcomingBlobName(uuid)
    ensures r.Success? ==> exists rows: seq<seq<Cell>> ::
              && |rows| == |table|
              && (forall i :: 0 <= i < |table| ==> rows[i] == UpcomingRow(StripCells(table[i]), rt).value)
              && r.value.body == CsvText([headers[..Min(8, |headers|)]] + RenderRows(rows, rt))
  {
    var cut := headers;
    if |headers| > 0 {
      cut := headers[..Min(8, |headers|)];
    }
    var rows :- GetRows(table, row => UpcomingRow(row, rt));
    var name := UpcomingBlobName(uuid);
    var body := ToCsv(cut, RenderRows(rows, rt));
    return Success(Blob(name, body));
  }

  /** `previous_ipos`: the same for the last-100 page, headers cut to seven. */
  method PreviousIpos(headers: seq<string>, table: seq<seq<string>>, uuid: string, rt: Runtime)
    returns (r: Result<Blob, PyError>)
    ensures r.Success? <==> forall i :: 0 <= i < |table| ==> Last100Row(StripCells(table[i]), rt).Success?
    ensures r.Success? ==> r.value.key == Last100BlobName(uuid)
    ensures r.Success? ==> exists rows: seq<seq<Cell>> ::
              && |rows| == |table|
              && (forall i :: 0 <= i < |table| ==> rows[i] == Last100Row(StripCells(table[i]), rt).value)
              && r.value.body == CsvText([headers[..Min(7, |headers|)]] + RenderRows(rows, rt))
  {
    var cut := headers;
    if |headers| > 0 {
      cut := headers[..Min(7, |headers|)];
    }
    var rows :- GetRows(table, row => Last100Row(row, rt));
    var name := Last100BlobName(uuid);
    var body := ToCsv(cut, RenderRows(rows, rt));
    return Success(Blob(name, body));
  }
}
