/** The values `add_car` takes from a request body (parking_system/app.py:163-168):
    the plate after `str.strip()`, the lane through `int(...)`, and the
    `small` flag by membership in `(True, 'on', 'true', '1')`. */
module Intake {
  import opened Common

  /** A JSON or form value as Python sees it after parsing. */
  datatype Value =
    | VStr(s: string)
    | VInt(n: int)
    | VBool(b: bool)
    | VNull
    | VOther   // lists, objects and other shapes the handler does not expect

  type Body = map<string, Value>

  /** The validated fields of an `add_car` request. */
  datatype AddRequest = AddRequest(plate: string, machine: int, small: nat)

  /** Python's `str.isspace` for one character: the characters `str.strip()`
      removes. */
  predicate IsSpace(c: char) {
    var n := c as int;
    || 9 <= n <= 13 || 28 <= n <= 32 || n == 0x85 || n == 0xa0 || n == 0x1680
    || 0x2000 <= n <= 0x200a || n == 0x2028 || n == 0x2029 || n == 0x202f
    || n == 0x205f || n == 0x3000
  }

  /** The characters `int()` skips around a number: ASCII space and
      `\t\n\v\f\r`, and the non-ASCII characters of `str.isspace`. The ASCII
      separators U+001C..U+001F count as whitespace for `strip()` but not
      here: `int()` refuses them. */
  predicate IsIntSpace(c: char) {
    IsSpace(c) && !(28 <= c as int <= 31)
  }

  /** Every character of `s[i..j]` is whitespace in the sense of `ws`. */
  ghost predicate SpacesBetween(ws: char -> bool, s: string, i: int, j: int)
    requires 0 <= i <= j <= |s|
  {
    forall k :: i <= k < j ==> ws(s[k])
  }

  ghost predicate AllSpace(s: string) {
    SpacesBetween(IsSpace, s, 0, |s|)
  }

  /** Where the text starts: the first index from `i` on that does not hold
      whitespace (or the end). */
  function TextStart(ws: char -> bool, s: string, i: nat): (j: nat)
    requires i <= |s|
    ensures i <= j <= |s|
    ensures SpacesBetween(ws, s, i, j)
    ensures j < |s| ==> !ws(s[j])
    decreases |s| - i
  {
    if i < |s| && ws(s[i]) then TextStart(ws, s, i + 1) else i
  }

  /** Where the text ends: the last index down to `lo` that follows a
      character other than whitespace (or `lo`). */
  function TextEnd(ws: char -> bool, s: string, lo: nat, j: nat): (e: nat)
    requires lo <= j <= |s|
    ensures lo <= e <= j
    ensures SpacesBetween(ws, s, e, j)
    ensures e > lo ==> !ws(s[e - 1])
    decreases j
  {
    if j > lo && ws(s[j - 1]) then TextEnd(ws, s, lo, j - 1) else j
  }

  /** The text with the whitespace of `ws` removed at both ends. */
  function Trim(ws: char -> bool, s: string): (r: string)
    ensures r == [] <==> SpacesBetween(ws, s, 0, |s|)
    ensures r != [] ==> !ws(r[0]) && !ws(r[|r| - 1])
  {
    var i := TextStart(ws, s, 0);
    var e := TextEnd(ws, s, i, |s|);
    assert SpacesBetween(ws, s, 0, |s|) ==> e == i by {
      if e > i { assert !ws(s[e - 1]); }
    }
    s[i..e]
  }

  /** Python's `str.strip()` with no argument: empty exactly for text that is
      all whitespace, and otherwise neither starting nor ending with it. */
  function Strip(s: string): (r: string)
    ensures r == [] <==> AllSpace(s)
    ensures r != [] ==> !IsSpace(r[0]) && !IsSpace(r[|r| - 1])
  {
    Trim(IsSpace, s)
  }

  /** Trimming removes only whitespace around a slice of the text; with the
      contract of `Trim` this slice is the one that neither starts nor ends
      with whitespace (for `strip()`, `ws` is `IsSpace`). */
  lemma TrimKeepsSlice(ws: char -> bool, s: string)
    ensures exists i, j :: 0 <= i <= j <= |s| && Trim(ws, s) == s[i..j]
                          && SpacesBetween(ws, s, 0, i) && SpacesBetween(ws, s, j, |s|)
  {
    var i := TextStart(ws, s, 0);
    var e := TextEnd(ws, s, i, |s|);
    assert Trim(ws, s) == s[i..e];
  }

  /** A text with no whitespace of `ws` at either end is its own trim. */
  lemma TrimUnpadded(ws: char -> bool, s: string)
    requires s != [] && !ws(s[0]) && !ws(s[|s| - 1])
    ensures Trim(ws, s) == s
  {
    assert TextStart(ws, s, 0) == 0;
    assert TextEnd(ws, s, 0, |s|) == |s|;
    assert s[0..|s|] == s;
  }

  /** A text with no whitespace at either end is its own `strip()`. */
  lemma StripUnpadded(s: string)
    requires s != [] && !IsSpace(s[0]) && !IsSpace(s[|s| - 1])
    ensures Strip(s) == s
  {
    TrimUnpadded(IsSpace, s);
  }

  /** Stripping twice is stripping once. */
  lemma StripIdempotent(s: string)
    ensures Strip(Strip(s)) == Strip(s)
  {
    var r := Strip(s);
    if r != [] {
      StripUnpadded(r);
    }
  }

  // ---------------- int() on a decimal string

  predicate IsDigit(c: char) {
    '0' as int <= c as int <= '9' as int
  }

  predicate AllDigits(s: string) {
    forall i :: 0 <= i < |s| ==> IsDigit(s[i])
  }

  function DigitValue(c: char): nat
    requires IsDigit(c)
  {
    (c as int) - ('0' as int)
  }

  function DigitChar(d: nat): (c: char)
    requires d < 10
    ensures IsDigit(c) && DigitValue(c) == d
  {
    (('0' as int) + d) as char
  }

  /** The value of a string of decimal digits, most significant first. */
  function DigitsValue(s: string): nat
    requires AllDigits(s)
  {
    if s == [] then 0 else 10 * DigitsValue(s[..|s| - 1]) + DigitValue(s[|s| - 1])
  }

  /** The decimal digits of `n` without leading zeros. */
  function Digits(n: nat): (s: string)
    ensures s != [] && AllDigits(s)
  {
    if n < 10 then [DigitChar(n)] else Digits(n / 10) + [DigitChar(n % 10)]
  }

  /** `str(n)` for an integer. */
  function DecimalString(n: int): string {
    if n < 0 then "-" + Digits(-n) else Digits(n)
  }

  /** The integer literals `int()` accepts once the surrounding whitespace is
      skipped: one or more ASCII digits, with an optional sign in front. */
  predicate IsIntLiteral(t: string) {
    || (t != [] && AllDigits(t))
    || (|t| >= 2 && (t[0] == '+' || t[0] == '-') && AllDigits(t[1..]))
  }

  /** Python's `int(s)` on a string: the whitespace `int()` skips is ignored
      at both ends, an optional sign is accepted, and at least one digit must
      follow; anything else raises `ValueError`. The value is that of the
      digits, negated after a minus sign. */
  function ParseInt(s: string): (r: Option<int>)
    ensures r.Some? <==> IsIntLiteral(Trim(IsIntSpace, s))
    ensures r.Some? ==>
      var t := Trim(IsIntSpace, s);
      var d := if t[0] == '+' || t[0] == '-' then t[1..] else t;
      AllDigits(d) && r.value == (if t[0] == '-' then -(DigitsValue(d) as int) else DigitsValue(d))
  {
    var t := Trim(IsIntSpace, s);
    var signed := t != [] && (t[0] == '-' || t[0] == '+');
    var body := if signed then t[1..] else t;
    if body == [] || exists i :: 0 <= i < |body| && !IsDigit(body[i]) then None
    else if signed && t[0] == '-' then Some(-(DigitsValue(body) as int))
    else Some(DigitsValue(body))
  }

  lemma {:induction false} DigitsRoundTrip(n: nat)
    ensures DigitsValue(Digits(n)) == n
  {
    if n >= 10 {
      DigitsRoundTrip(n / 10);
      var s := Digits(n);
      assert s[..|s| - 1] == Digits(n / 10);
    }
  }

  /** `k` zero digits. */
  function Zeros(k: nat): (z: string)
    ensures |z| == k && AllDigits(z)
  {
    if k == 0 then [] else Zeros(k - 1) + "0"
  }

  /** Leading zeros do not change the value of a digit string. */
  lemma {:induction false} LeadingZeros(k: nat, d: string)
    requires AllDigits(d)
    ensures AllDigits(Zeros(k) + d)
    ensures DigitsValue(Zeros(k) + d) == DigitsValue(d)
    decreases |d|, k
  {
    var z := Zeros(k);
    if d == [] {
      assert z + d == z;
      if k > 0 {
        LeadingZeros(k - 1, []);
        assert Zeros(k - 1) + [] == Zeros(k - 1);
        assert z[..|z| - 1] == Zeros(k - 1);
      }
    } else {
      LeadingZeros(k, d[..|d| - 1]);
      assert (z + d)[..|z + d| - 1] == z + d[..|d| - 1];
    }
  }

  lemma DigitNotSpace(c: char)
    requires IsDigit(c)
    ensures !IsSpace(c)
  {
  }

  /** `int(str(n)) == n`. */
  lemma ParseIntRoundTrip(n: int)
    ensures ParseInt(DecimalString(n)) == Some(n)
  {
    var s := DecimalString(n);
    var d := Digits(if n < 0 then -n else n);
    DigitNotSpace(d[0]);
    DigitNotSpace(d[|d| - 1]);
    assert s[|s| - 1] == d[|d| - 1];
    TrimUnpadded(IsIntSpace, s);
    if n < 0 {
      assert s[0] == '-' && s[1..] == d;
      DigitsRoundTrip(-n);
    } else {
      DigitNotSpace(s[0]);
      DigitsRoundTrip(n);
    }
  }

  /** A space in front and a newline behind are trimmed off. */
  lemma TrimSpaceAndNewline(ws: char -> bool, a: string)
    requires ws(' ') && ws('\n')
    requires a != [] && !ws(a[0]) && !ws(a[|a| - 1])
    ensures Trim(ws, " " + a + "\n") == a
  {
    var s := " " + a + "\n";
    assert TextStart(ws, s, 1) == 1;
    assert TextEnd(ws, s, 1, |s| - 1) == |s| - 1;
    assert s[1..|s| - 1] == a;
  }

  /** A plus sign and digits between a space and a newline read as the digits. */
  lemma ParsePlusDigits(d: string)
    requires d != [] && AllDigits(d)
    ensures ParseInt(" +" + d + "\n") == Some(DigitsValue(d))
  {
    var a := "+" + d;
    assert a[|a| - 1] == d[|d| - 1];
    DigitNotSpace(a[|a| - 1]);
    TrimSpaceAndNewline(IsIntSpace, a);
    assert " +" + d + "\n" == " " + a + "\n";
    assert a[1..] == d;
  }

  /** `int()` reads a number written with surrounding spaces, a plus sign and
      leading zeros, as in `int(" +007\n") == 7`. */
  lemma ParseIntPadded(n: nat, k: nat)
    ensures ParseInt(" +" + (Zeros(k) + Digits(n)) + "\n") == Some(n)
  {
    LeadingZeros(k, Digits(n));
    DigitsRoundTrip(n);
    ParsePlusDigits(Zeros(k) + Digits(n));
  }

  /** `int()` skips less than `strip()` does: a file separator (U+001C) in
      front of a digit is stripped by `strip()` but refused by `int()`, while
      ASCII spaces and newlines around the digit are skipped by both. */
  lemma IntSkipsLessThanStrip()
    ensures Strip("\U{1c}2") == "2"
    ensures ParseInt("\U{1c}2") == None
    ensures ParseInt(" 2\n") == Some(2)
  {
    StripUnpadded("2");
    assert Strip("\U{1c}2") == "\U{1c}2"[1..];
    TrimUnpadded(IsIntSpace, "\U{1c}2");
    assert TextStart(IsIntSpace, " 2\n", 0) == 1;
    assert TextEnd(IsIntSpace, " 2\n", 1, 3) == 2;
    assert Trim(IsIntSpace, " 2\n") == "2";
    assert DigitsValue("2") == 2;
  }

  // ---------------- the three fields

  /** `data.get('plate', '').strip()`: a missing plate is the empty text; a
      value that is not a string has no `strip` and the handler fails. */
  function PlateField(body: Body): (r: Result<string, Response>)
    ensures r.Failure? <==> "plate" in body && !body["plate"].VStr?
    ensures r.Failure? ==> r.error == ServerError
    ensures r.Success? ==> (r.value == [] <==> "plate" !in body || AllSpace(body["plate"].s))
    ensures r.Success? && "plate" in body ==> r.value == Strip(body["plate"].s)
  {
    if "plate" !in body then Success(Strip(""))
    else match body["plate"]
      case VStr(s) => Success(Strip(s))
      case _ => Failure(ServerError)
  }

  /** `int(data.get('machine', 1))`: the lane defaults to 1, an integer is
      taken as it is, a boolean is 0 or 1, a string goes through `int()`;
      whatever `int()` refuses, `None` and other shapes included, makes the
      handler fail. */
  function MachineField(body: Body): (r: Result<int, Response>)
    ensures "machine" !in body ==> r == Success(1)
    ensures "machine" in body && body["machine"].VInt? ==> r == Success(body["machine"].n)
    ensures "machine" in body && body["machine"].VBool? ==>
      r == Success(if body["machine"].b then 1 else 0)
    ensures "machine" in body && body["machine"].VStr? ==>
      (r.Success? <==> ParseInt(body["machine"].s).Some?)
      && (r.Success? ==> r.value == ParseInt(body["machine"].s).value)
    ensures "machine" in body && (body["machine"].VNull? || body["machine"].VOther?) ==>
      r == Failure(ServerError)
    ensures r.Failure? ==> r.error == ServerError
  {
    if "machine" !in body then Success(1)
    else match body["machine"]
      case VInt(n) => Success(n)
      case VBool(b) => Success(if b then 1 else 0)
      case VStr(s) =>
        (match ParseInt(s)
         case Some(n) => Success(n)
         case None => Failure(ServerError))
      case _ => Failure(ServerError)
  }

  /** A lane sent as a number and the same lane sent as its decimal text (as
      a form field carries it) are the same lane. */
  lemma MachineTextIsNumber(body: Body, n: int)
    ensures MachineField(body["machine" := VStr(DecimalString(n))]) == MachineField(body["machine" := VInt(n)])
  {
    ParseIntRoundTrip(n);
  }

  /** The values `data.get('small') in (True, 'on', 'true', '1')` accepts; in
      Python `1 == True`, so the integer 1 is among them. */
  const SmallOn: set<Value> := {VBool(true), VInt(1), VStr("on"), VStr("true"), VStr("1")}

  /** `1 if data.get('small') in (True, 'on', 'true', '1') else 0`. */
  function SmallField(body: Body): (small: nat)
    ensures small <= 1
    ensures small == 1 <==> "small" in body && body["small"] in SmallOn
  {
    if "small" !in body then 0
    else match body["small"]
      case VBool(b) => if b then 1 else 0
      case VInt(n) => if n == 1 then 1 else 0
      case VStr(s) => if s == "on" || s == "true" || s == "1" then 1 else 0
      case _ => 0
  }

  /** The validation part of `add_car`, in the handler's order: the plate
      first (a blank plate is a 400), then the lane (an `int()` failure is a
      500), then the `small` flag, which cannot fail. An accepted request
      carries the three field values. */
  function ParseAdd(body: Body): (r: Result<AddRequest, Response>)
    ensures r.Success? ==> r.value.plate != [] && r.value.small <= 1
    ensures r.Success? ==>
      && PlateField(body) == Success(r.value.plate)
      && MachineField(body) == Success(r.value.machine)
      && r.value.small == SmallField(body)
    ensures r.Success? <==>
      PlateField(body).Success? && PlateField(body).value != [] && MachineField(body).Success?
    ensures r.Failure? ==> r.error == BadRequest || r.error == ServerError
  {
    match PlateField(body)
    case Failure(e) => Failure(e)
    case Success(plate) =>
      if plate == [] then Failure(BadRequest)
      else match MachineField(body)
        case Failure(e) => Failure(e)
        case Success(machine) => Success(AddRequest(plate, machine, SmallField(body)))
  }

  /** A request is refused with 400 exactly when its plate is missing or
      a string of whitespace only. */
  lemma BadRequestIffBlankPlate(body: Body)
    ensures ParseAdd(body) == Failure(BadRequest) <==>
      ("plate" !in body || (body["plate"].VStr? && AllSpace(body["plate"].s)))
  {
  }

  /** An accepted plate is stored stripped: it neither starts nor ends with
      whitespace and it is the plate text with surrounding whitespace removed. */
  lemma AcceptedPlateIsStripped(body: Body)
    requires ParseAdd(body).Success?
    ensures "plate" in body && body["plate"].VStr?
    ensures ParseAdd(body).value.plate == Strip(body["plate"].s)
    ensures !IsSpace(ParseAdd(body).value.plate[0])
    ensures Strip(ParseAdd(body).value.plate) == ParseAdd(body).value.plate
  {
    StripIdempotent(body["plate"].s);
  }

  /** A plate with a lane that `int()` refuses: the request fails with 500
      after the plate check, so nothing is stored. */
  lemma SeparatorLaneIsServerError()
    ensures ParseAdd(map["plate" := VStr("12\U{ac00}3456"), "machine" := VStr("\U{1c}2")])
      == Failure(ServerError)
  {
    IntSkipsLessThanStrip();
    StripUnpadded("12\U{ac00}3456");
  }
}
