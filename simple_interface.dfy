/** The validation body of `Interface.get_seq_from_the_user` (simple_interface.py):
    one line typed by the user is split at commas, every piece is stripped of
    surrounding whitespace and must be a non-empty string of decimal digits,
    the pieces are converted to integers, and the sequence must have exactly
    `k` elements, each in `[1, k]`. The first failing check decides which
    message the user sees; here it decides the error returned. */
module SimpleInterface {

  import opened Wrappers
  import Judge

  /** The three rejections, in the order the checks run. */
  datatype ParseError = NotDigits | WrongLength | OutOfRange

  // ---------------------------------------------------------------------
  // str.split(",")

  function CountChar(s: string, c: char): (n: nat)
    ensures n <= |s|
  {
    if |s| == 0 then 0 else (if s[0] == c then 1 else 0) + CountChar(s[1..], c)
  }

  /** Python's `s.split(sep)`: the pieces between consecutive separators, so
      there is always one more piece than there are separators and no piece
      contains the separator. */
  function Split(s: string, sep: char): (pieces: seq<string>)
    ensures |pieces| == CountChar(s, sep) + 1
    ensures forall i :: 0 <= i < |pieces| ==> sep !in pieces[i]
  {
    if |s| == 0 then [""]
    else
      var rest := Split(s[1..], sep);
      if s[0] == sep then [""] + rest
      else [[s[0]] + rest[0]] + rest[1..]
  }

  /** Python's `sep.join(pieces)`, the inverse of `Split`. */
  function Join(pieces: seq<string>, sep: char): string {
    if |pieces| == 0 then ""
    else if |pieces| == 1 then pieces[0]
    else pieces[0] + [sep] + Join(pieces[1..], sep)
  }

  /** Splitting loses nothing: joining the pieces gives the input back. */
  lemma {:induction false} JoinOfSplit(s: string, sep: char)
    ensures Join(Split(s, sep), sep) == s
  {
    if |s| > 0 {
      var rest := Split(s[1..], sep);
      JoinOfSplit(s[1..], sep);
      if s[0] != sep && |rest| > 1 {
        assert Split(s, sep)[1..] == rest[1..];
      }
    }
  }

  /** A string without the separator is a single piece. */
  lemma {:induction false} SplitWithoutSeparator(p: string, sep: char)
    requires sep !in p
    ensures Split(p, sep) == [p]
  {
    if |p| > 0 {
      SplitWithoutSeparator(p[1..], sep);
      assert [p[0]] + p[1..] == p;
    }
  }

  /** A separator after a separator-free prefix ends the first piece. */
  lemma {:induction false} SplitAtSeparator(p: string, sep: char, t: string)
    requires sep !in p
    ensures Split(p + [sep] + t, sep) == [p] + Split(t, sep)
  {
    if |p| > 0 {
      SplitAtSeparator(p[1..], sep, t);
      assert (p + [sep] + t)[0] == p[0];
      assert (p + [sep] + t)[1..] == p[1..] + [sep] + t;
      assert [p[0]] + p[1..] == p;
    } else {
      assert p + [sep] + t == [sep] + t;
    }
  }

  /** Joining separator-free pieces and splitting again gives the pieces back. */
  lemma {:induction false} SplitOfJoin(pieces: seq<string>, sep: char)
    requires |pieces| > 0
    requires forall i :: 0 <= i < |pieces| ==> sep !in pieces[i]
    ensures Split(Join(pieces, sep), sep) == pieces
  {
    if |pieces| == 1 {
      SplitWithoutSeparator(pieces[0], sep);
    } else {
      SplitOfJoin(pieces[1..], sep);
      SplitAtSeparator(pieces[0], sep, Join(pieces[1..], sep));
    }
  }

  // ---------------------------------------------------------------------
  // str.strip()

  /** The ASCII characters for which Python's `str.isspace` holds:
      tab, line feed, vertical tab, form feed, carriage return, the four
      information separators 28-31, and space. */
  predicate IsSpace(c: char) {
    c == ' ' || '\t' <= c <= '\r' || 28 <= c as int <= 31
  }

  predicate AllSpace(s: string) {
    forall i :: 0 <= i < |s| ==> IsSpace(s[i])
  }

  /** Drops the leading whitespace: the result is a suffix of `s`, what was
      dropped is whitespace, and the result does not start with whitespace. */
  function TrimLeft(s: string): (r: string)
    ensures |r| <= |s| && r == s[|s| - |r|..]
    ensures AllSpace(s[..|s| - |r|])
    ensures |r| > 0 ==> !IsSpace(r[0])
  {
    if |s| > 0 && IsSpace(s[0]) then TrimLeft(s[1..]) else s
  }

  /** Drops the trailing whitespace: the mirror image of `TrimLeft`. */
  function TrimRight(s: string): (r: string)
    ensures |r| <= |s| && r == s[..|r|]
    ensures AllSpace(s[|r|..])
    ensures |r| > 0 ==> !IsSpace(r[|r| - 1])
  {
    if |s| > 0 && IsSpace(s[|s| - 1]) then TrimRight(s[..|s| - 1]) else s
  }

  /** Python's `s.strip()`: whitespace removed at both ends, so the result is
      empty or starts and ends with a non-space character. */
  function Strip(s: string): (r: string)
    ensures |r| <= |s|
    ensures |r| > 0 ==> !IsSpace(r[0]) && !IsSpace(r[|r| - 1])
  {
    TrimRight(TrimLeft(s))
  }

  /** What `Strip` removes is whitespace and what it keeps is one slice of the input. */
  lemma StripIsSlice(s: string)
    ensures exists i, j :: 0 <= i <= j <= |s| && Strip(s) == s[i..j] && AllSpace(s[..i]) && AllSpace(s[j..])
  {
    var left := TrimLeft(s);
    var r := TrimRight(left);
    var i := |s| - |left|;
    assert r == s[i..i + |r|];
    assert s[i + |r|..] == left[|r|..];
  }

  /** Stripping adds no character: everything in the result was in the input. */
  lemma StripKeepsOnlyInput(s: string)
    ensures forall c :: c in Strip(s) ==> c in s
  {
    TrimLeftKeepsOnlyInput(s);
    TrimRightKeepsOnlyInput(TrimLeft(s));
  }

  lemma {:induction false} TrimLeftKeepsOnlyInput(s: string)
    ensures forall c :: c in TrimLeft(s) ==> c in s
  {
    if |s| > 0 && IsSpace(s[0]) {
      TrimLeftKeepsOnlyInput(s[1..]);
      assert forall c :: c in s[1..] ==> c in s;
    }
  }

  lemma {:induction false} TrimRightKeepsOnlyInput(s: string)
    ensures forall c :: c in TrimRight(s) ==> c in s
  {
    if |s| > 0 && IsSpace(s[|s| - 1]) {
      TrimRightKeepsOnlyInput(s[..|s| - 1]);
      assert forall c :: c in s[..|s| - 1] ==> c in s;
    }
  }

  // ---------------------------------------------------------------------
  // str.isdigit() and int()

  predicate IsDigit(c: char) {
    '0' <= c <= '9'
  }

  predicate AllDigits(s: string) {
    forall i :: 0 <= i < |s| ==> IsDigit(s[i])
  }

  /** Python's `s.isdigit()` on ASCII text: non-empty and digits only. */
  predicate IsDigits(s: string) {
    |s| > 0 && AllDigits(s)
  }

  function DigitValue(c: char): (d: nat)
    requires IsDigit(c)
    ensures d < 10
  {
    c as int - '0' as int
  }

  /** Python's `int(s)` on a string of decimal digits. */
  function DecimalValue(s: string): nat
    requires AllDigits(s)
  {
    if |s| == 0 then 0
    else DecimalValue(s[..|s| - 1]) * 10 + DigitValue(s[|s| - 1])
  }

  function Digit(d: nat): (c: char)
    requires d < 10
    ensures IsDigit(c) && DigitValue(c) == d
  {
    ('0' as int + d) as char
  }

  /** The canonical decimal spelling of `n`, as Python's `str(n)` writes it. */
  function Decimal(n: nat): (s: string)
    ensures IsDigits(s)
  {
    if n < 10 then [Digit(n)] else Decimal(n / 10) + [Digit(n % 10)]
  }

  /** `int(str(n)) == n`. */
  lemma {:induction false} DecimalValueOfDecimal(n: nat)
    ensures DecimalValue(Decimal(n)) == n
  {
    if n >= 10 {
      DecimalValueOfDecimal(n / 10);
      var s := Decimal(n);
      assert s[..|s| - 1] == Decimal(n / 10);
    } else {
      assert Decimal(n)[..0] == [];
    }
  }

  /** Leading zeros do not change the value: `int("007") == 7`. */
  lemma {:induction false} LeadingZero(s: string)
    requires AllDigits(s)
    ensures AllDigits(['0'] + s) && DecimalValue(['0'] + s) == DecimalValue(s)
  {
    var z := ['0'] + s;
    if |s| > 0 {
      var n := |s| - 1;
      LeadingZero(s[..n]);
      assert z[..|z| - 1] == ['0'] + s[..n];
    } else {
      assert z[..0] == [];
    }
  }

  /** A digit string not starting with `'0'` has a positive value. */
  lemma {:induction false} PositiveValue(s: string)
    requires IsDigits(s) && s[0] != '0'
    ensures DecimalValue(s) >= 1
  {
    var n := |s| - 1;
    if n > 0 {
      assert s[..n][0] == s[0];
      PositiveValue(s[..n]);
    } else {
      assert s[..0] == [];
    }
  }

  /** `str(int(s)) == s` for a digit string without a leading zero: `DecimalValue`
      and `Decimal` are inverse to each other on canonical spellings. */
  lemma {:induction false} DecimalOfDecimalValue(s: string)
    requires IsDigits(s) && (|s| == 1 || s[0] != '0')
    ensures Decimal(DecimalValue(s)) == s
  {
    var n := |s| - 1;
    var last := s[n];
    assert Digit(DigitValue(last)) == last;
    if n == 0 {
      assert s[..0] == [];
      assert s == [last];
    } else {
      var front := s[..n];
      assert front[0] == s[0];
      DecimalOfDecimalValue(front);
      PositiveValue(front);
      var v := DecimalValue(s);
      assert v == DecimalValue(front) * 10 + DigitValue(last);
      assert v / 10 == DecimalValue(front) && v % 10 == DigitValue(last);
      assert s == front + [last];
    }
  }

  // ---------------------------------------------------------------------
  // The validation body

  /** The pieces of the line, each stripped: `[ele.strip() for ele in s.split(",")]`. */
  function Fields(s: string): (fields: seq<string>)
    ensures |fields| == CountChar(s, ',') + 1
    ensures forall i :: 0 <= i < |fields| ==> fields[i] == Strip(Split(s, ',')[i])
  {
    var pieces := Split(s, ',');
    seq(|pieces|, i requires 0 <= i < |pieces| => Strip(pieces[i]))
  }

  /** No field contains a comma, and no non-empty field starts or ends with whitespace. */
  lemma FieldsAreTrimmed(s: string)
    ensures forall i :: 0 <= i < |Fields(s)| ==> ',' !in Fields(s)[i]
    ensures forall i :: 0 <= i < |Fields(s)| && |Fields(s)[i]| > 0 ==>
      !IsSpace(Fields(s)[i][0]) && !IsSpace(Fields(s)[i][|Fields(s)[i]| - 1])
  {
    forall i | 0 <= i < |Fields(s)| ensures ',' !in Fields(s)[i] {
      StripKeepsOnlyInput(Split(s, ',')[i]);
    }
  }

  /** `all(ele.strip().isdigit() for ele in seq)`. */
  predicate AllDigitFields(fields: seq<string>) {
    forall i :: 0 <= i < |fields| ==> IsDigits(fields[i])
  }

  /** `[int(ele.strip()) for ele in seq]`. */
  function FieldValues(fields: seq<string>): (values: seq<int>)
    requires AllDigitFields(fields)
    ensures |values| == |fields|
    ensures forall i :: 0 <= i < |fields| ==> values[i] == DecimalValue(fields[i])
  {
    seq(|fields|, i requires 0 <= i < |fields| => DecimalValue(fields[i]) as int)
  }

  /** One pass of the `get_seq_from_the_user` loop body on the line `s`: on
      success the sequence has one value per comma-separated piece, exactly `k`
      of them, each the decimal value of its stripped piece and each in `[1, k]`. */
  function ParseSeq(s: string, k: int): (r: Result<seq<int>, ParseError>)
    ensures r.Ok? ==> |r.value| == k == CountChar(s, ',') + 1 && Judge.AllInRange(k, r.value)
    ensures r.Ok? ==> forall i :: 0 <= i < |r.value| ==>
      IsDigits(Strip(Split(s, ',')[i])) && r.value[i] == DecimalValue(Strip(Split(s, ',')[i]))
  {
    var fields := Fields(s);
    if !AllDigitFields(fields) then Err(NotDigits)
    else
      var values := FieldValues(fields);
      if |values| != k then Err(WrongLength)
      else if !Judge.AllInRange(k, values) then Err(OutOfRange)
      else Ok(values)
  }

  /** Which check rejects a line: digits first, then the length, then the range. */
  lemma ParseSeqOutcome(s: string, k: int)
    ensures ParseSeq(s, k) == Err(NotDigits) <==>
      exists i :: 0 <= i < |Split(s, ',')| && !IsDigits(Strip(Split(s, ',')[i]))
    ensures ParseSeq(s, k) == Err(WrongLength) <==>
      AllDigitFields(Fields(s)) && CountChar(s, ',') + 1 != k
    ensures ParseSeq(s, k) == Err(OutOfRange) <==>
      AllDigitFields(Fields(s)) && CountChar(s, ',') + 1 == k &&
      exists i :: 0 <= i < |Fields(s)| && !(1 <= DecimalValue(Fields(s)[i]) <= k)
  {
    NotDigitsOutcome(s, k);
    OutOfRangeOutcome(s, k);
  }

  lemma NotDigitsOutcome(s: string, k: int)
    ensures ParseSeq(s, k) == Err(NotDigits) <==>
      exists i :: 0 <= i < |Split(s, ',')| && !IsDigits(Strip(Split(s, ',')[i]))
  {
    var fields := Fields(s);
    if !AllDigitFields(fields) {
      var i :| 0 <= i < |fields| && !IsDigits(fields[i]);
      assert !IsDigits(Strip(Split(s, ',')[i]));
    }
  }

  lemma OutOfRangeOutcome(s: string, k: int)
    ensures ParseSeq(s, k) == Err(OutOfRange) <==>
      AllDigitFields(Fields(s)) && CountChar(s, ',') + 1 == k &&
      exists i :: 0 <= i < |Fields(s)| && !(1 <= DecimalValue(Fields(s)[i]) <= k)
  {
    var fields := Fields(s);
    if AllDigitFields(fields) {
      RangeCheck(fields, k);
    }
  }

  /** The range check fails exactly when some field reads as a value outside `[1, k]`. */
  lemma RangeCheck(fields: seq<string>, k: int)
    requires AllDigitFields(fields)
    ensures !Judge.AllInRange(k, FieldValues(fields)) <==>
      exists i :: 0 <= i < |fields| && !(1 <= DecimalValue(fields[i]) <= k)
  {
    var values := FieldValues(fields);
    if !Judge.AllInRange(k, values) {
      var i :| 0 <= i < |values| && !Judge.InRange(k, values[i]);
      assert !(1 <= DecimalValue(fields[i]) <= k);
    }
  }

  // ---------------------------------------------------------------------
  // Properties of the validation

  /** A digit string has no surrounding whitespace, so stripping keeps it. */
  lemma StripDigits(p: string)
    requires IsDigits(p)
    ensures Strip(p) == p
  {
    assert TrimLeft(p) == p;
    assert TrimRight(p) == p;
  }

  /** A piece made only of whitespace (the empty piece in particular) strips to
      the empty string, which is not a digit string. */
  lemma {:induction false} StripAllSpace(p: string)
    requires AllSpace(p)
    ensures Strip(p) == ""
  {
    if |p| > 0 {
      StripAllSpace(p[1..]);
      assert TrimLeft(p) == TrimLeft(p[1..]);
    }
  }

  /** `TrimLeft` stops at the first non-space character. */
  lemma {:induction false} TrimLeftKeeps(s: string, m: nat)
    requires m < |s| && !IsSpace(s[m])
    ensures |s| - |TrimLeft(s)| <= m
  {
    if IsSpace(s[0]) {
      TrimLeftKeeps(s[1..], m - 1);
    }
  }

  /** `TrimRight` stops at the last non-space character. */
  lemma {:induction false} TrimRightKeeps(s: string, m: nat)
    requires m < |s| && !IsSpace(s[m])
    ensures m < |TrimRight(s)|
  {
    var n := |s| - 1;
    if IsSpace(s[n]) {
      assert s[..n][m] == s[m];
      TrimRightKeeps(s[..n], m);
    }
  }

  /** A piece holding a character that is neither a digit nor whitespace keeps
      it after stripping, so the line is rejected as not numeric. */
  lemma StripKeepsNonSpace(p: string, m: nat)
    requires m < |p| && !IsSpace(p[m])
    ensures p[m] in Strip(p)
  {
    var left := TrimLeft(p);
    var offset := |p| - |left|;
    TrimLeftKeeps(p, m);
    assert left[m - offset] == p[m];
    TrimRightKeeps(left, m - offset);
    assert Strip(p)[m - offset] == p[m];
  }

  lemma ParseRejectsBlankPiece(s: string, k: int, n: nat)
    requires n < |Split(s, ',')| && AllSpace(Split(s, ',')[n])
    ensures ParseSeq(s, k) == Err(NotDigits)
  {
    StripAllSpace(Split(s, ',')[n]);
    assert !IsDigits(Fields(s)[n]);
  }

  lemma ParseRejectsNonDigit(s: string, k: int, n: nat, m: nat)
    requires n < |Split(s, ',')| && m < |Split(s, ',')[n]|
    requires !IsSpace(Split(s, ',')[n][m]) && !IsDigit(Split(s, ',')[n][m])
    ensures ParseSeq(s, k) == Err(NotDigits)
  {
    var piece := Split(s, ',')[n];
    StripKeepsNonSpace(piece, m);
    var r := Strip(piece);
    var x :| 0 <= x < |r| && r[x] == piece[m];
    assert !IsDigits(Fields(s)[n]);
  }

  /** Splitting a line that ends in the separator yields an empty last piece. */
  lemma {:induction false} SplitTrailingSeparator(t: string, sep: char)
    ensures |Split(t + [sep], sep)| >= 2 && Split(t + [sep], sep)[|Split(t + [sep], sep)| - 1] == ""
  {
    if |t| == 0 {
      assert t + [sep] == [sep];
    } else {
      SplitTrailingSeparator(t[1..], sep);
      assert (t + [sep])[0] == t[0];
      assert (t + [sep])[1..] == t[1..] + [sep];
    }
  }

  /** The empty line, a trailing comma and signed numbers are all rejected by the digit check. */
  lemma ParseRejectsExamples(t: string, k: int)
    ensures ParseSeq("", k) == Err(NotDigits)
    ensures ParseSeq(t + ",", k) == Err(NotDigits)
    ensures ParseSeq("-1", k) == Err(NotDigits)
    ensures ParseSeq("+1", k) == Err(NotDigits)
  {
    ParseRejectsBlankPiece("", k, 0);
    SplitTrailingSeparator(t, ',');
    var n := |Split(t + ",", ',')| - 1;
    ParseRejectsBlankPiece(t + ",", k, n);
    SplitWithoutSeparator("-1", ',');
    ParseRejectsNonDigit("-1", k, 0, 0);
    SplitWithoutSeparator("+1", ',');
    ParseRejectsNonDigit("+1", k, 0, 0);
  }

  /** `"0"` passes the digit check and the length check for `k == 1`, and is
      rejected by the range check. */
  lemma ParseZeroOutOfRange()
    ensures ParseSeq("0", 1) == Err(OutOfRange)
  {
    SplitWithoutSeparator("0", ',');
    StripDigits("0");
    assert Fields("0") == ["0"];
    assert DecimalValue("0") == 0 by { assert "0"[..0] == []; }
    assert AllDigitFields(["0"]);
    assert FieldValues(["0"]) == [0];
    assert !Judge.InRange(1, [0][0]);
  }

  lemma StripPaddedExamples()
    ensures Strip(" 01") == "01" && Strip(" 002 ") == "002"
  {
    assert TrimLeft("01") == "01";
    assert TrimLeft(" 01") == "01";
    assert TrimRight("01") == "01";
    assert TrimLeft("002 ") == "002 ";
    assert TrimLeft(" 002 ") == "002 ";
    assert "002 "[..3] == "002";
    assert TrimRight("002") == "002";
    assert TrimRight("002 ") == "002";
  }

  lemma LeadingZeroExamples()
    ensures AllDigitFields(["01", "002"]) && FieldValues(["01", "002"]) == [1, 2]
  {
    assert DecimalValue("1") == 1 by { assert "1"[..0] == []; }
    assert DecimalValue("2") == 2 by { assert "2"[..0] == []; }
    LeadingZero("1");
    assert ['0'] + "1" == "01";
    LeadingZero("2");
    assert ['0'] + "2" == "02";
    LeadingZero("02");
    assert ['0'] + "02" == "002";
  }

  /** Leading zeros and surrounding spaces are accepted: `" 01, 002 "` reads as `[1, 2]`. */
  lemma ParseLeadingZeros(s: string)
    requires s == " 01, 002 "
    ensures ParseSeq(s, 2) == Ok([1, 2])
  {
    var fields := ["01", "002"];
    PaddedFields(s);
    LeadingZeroExamples();
    assert Judge.AllInRange(2, [1, 2]);
    ParseSeqOfFields(s, 2, fields, [1, 2]);
  }

  lemma PaddedFields(s: string)
    requires s == " 01, 002 "
    ensures Fields(s) == ["01", "002"]
  {
    assert s == " 01" + [','] + " 002 ";
    FieldsOfTwoPieces(" 01", " 002 ");
    StripPaddedExamples();
  }

  /** A line with one comma has the two stripped sides as its fields. */
  lemma FieldsOfTwoPieces(p: string, q: string)
    requires ',' !in p && ',' !in q
    ensures Fields(p + [','] + q) == [Strip(p), Strip(q)]
  {
    SplitAtSeparator(p, ',', q);
    SplitWithoutSeparator(q, ',');
    FieldsOfPieces(p + [','] + q, [p, q]);
  }

  /** A line whose fields are all digits and spell `values` in range parses to `values`. */
  lemma ParseSeqOfFields(s: string, k: int, fields: seq<string>, values: seq<int>)
    requires Fields(s) == fields && AllDigitFields(fields) && FieldValues(fields) == values
    requires |values| == k && Judge.AllInRange(k, values)
    ensures ParseSeq(s, k) == Ok(values)
  {
  }

  /** The fields are the stripped pieces. */
  lemma FieldsOfPieces(s: string, pieces: seq<string>)
    requires Split(s, ',') == pieces
    ensures |Fields(s)| == |pieces| && forall i :: 0 <= i < |pieces| ==> Fields(s)[i] == Strip(pieces[i])
  {
  }

  /** The decimal spellings of `values`, one per element. */
  function Spellings(values: seq<int>): (pieces: seq<string>)
    requires forall i :: 0 <= i < |values| ==> values[i] >= 0
    ensures |pieces| == |values|
    ensures forall i :: 0 <= i < |values| ==> IsDigits(pieces[i]) && DecimalValue(pieces[i]) == values[i]
  {
    forall i | 0 <= i < |values| ensures DecimalValue(Decimal(values[i])) == values[i] {
      DecimalValueOfDecimal(values[i]);
    }
    seq(|values|, i requires 0 <= i < |values| => Decimal(values[i]))
  }

  /** The line a user would type for `values`: each value in decimal, joined by commas. */
  function Format(values: seq<int>): string
    requires forall i :: 0 <= i < |values| ==> values[i] >= 0
  {
    Join(Spellings(values), ',')
  }

  /** Digit strings contain no separator and are left alone by stripping. */
  lemma DigitPieces(pieces: seq<string>)
    requires forall i :: 0 <= i < |pieces| ==> IsDigits(pieces[i])
    ensures forall i :: 0 <= i < |pieces| ==> ',' !in pieces[i] && Strip(pieces[i]) == pieces[i]
  {
    forall i | 0 <= i < |pieces| ensures ',' !in pieces[i] {
      assert !IsDigit(',');
    }
    forall i | 0 <= i < |pieces| ensures Strip(pieces[i]) == pieces[i] {
      StripDigits(pieces[i]);
    }
  }

  /** Pieces that stripping leaves alone are the fields themselves. */
  lemma FieldsOfUnpaddedPieces(s: string)
    requires forall i :: 0 <= i < |Split(s, ',')| ==> Strip(Split(s, ',')[i]) == Split(s, ',')[i]
    ensures Fields(s) == Split(s, ',')
  {
  }

  /** The fields of a formatted line are the spellings it was made of. */
  lemma FieldsOfFormat(values: seq<int>)
    requires |values| > 0 && forall i :: 0 <= i < |values| ==> values[i] >= 0
    ensures Fields(Format(values)) == Spellings(values)
  {
    var pieces := Spellings(values);
    DigitPieces(pieces);
    SplitOfJoin(pieces, ',');
    FieldsOfUnpaddedPieces(Join(pieces, ','));
  }

  /** Every acceptable sequence is accepted when typed out, and read back unchanged. */
  lemma ParseSeqOfFormat(values: seq<int>, k: int)
    requires k > 0 && |values| == k && Judge.AllInRange(k, values)
    ensures ParseSeq(Format(values), k) == Ok(values)
  {
    assert forall i :: 0 <= i < |values| ==> Judge.InRange(k, values[i]);
    FieldsOfFormat(values);
    var fields := Fields(Format(values));
    assert AllDigitFields(fields);
    assert FieldValues(fields) == values;
  }

  /** Two lines accepted for the same `k` are valid input to the judge, whose
      feedback then stays within `k`. */
  lemma ParsedLinesAreJudged(hiddenLine: string, queryLine: string, k: int)
    requires ParseSeq(hiddenLine, k).Ok? && ParseSeq(queryLine, k).Ok?
    ensures Judge.Score(k, ParseSeq(hiddenLine, k).value, ParseSeq(queryLine, k).value).Ok?
    ensures var f := Judge.Score(k, ParseSeq(hiddenLine, k).value, ParseSeq(queryLine, k).value).value;
      f.exact + f.partial <= k
  {
    Judge.ScoreBounds(k, ParseSeq(hiddenLine, k).value, ParseSeq(queryLine, k).value);
  }
}
