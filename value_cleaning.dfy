/** `limpar_valor`: the value cell of a result row is reduced to its
    digits, commas, slashes and percent signs (`re.sub(r"[^\d,/%]", "", …)`)
    and then classified: a percentage is dropped, a comma makes it a
    number, a slash makes it a month/year date, anything else stays text. */
module ValueCleaning {
  import opened Wrappers
  import opened Strings
  import opened Dates

  /** What `limpar_valor` returns: `None`, a `str`, a `float` or a
      `datetime.date`. A number is kept exactly as the decimal the text
      spells, `mantissa / 10^scale`; `float()` would round it to binary. */
  datatype Value =
    | Absent
    | Text(text: string)
    | Number(mantissa: nat, scale: nat)
    | Calendar(date: Date)

  /** The exceptions `limpar_valor` can raise: the `ValueError`s of
      `float()`, of unpacking the split date and of `int()`, and those of
      `datetime.date()`, which raises `OverflowError` for an argument that
      does not fit a C `int` and `ValueError` for one out of range. */
  datatype ValueError =
    | NotAFloat(text: string)
    | UnpackMismatch(parts: nat)
    | NotAnInteger(text: string)
    | BadDate(reason: DateError)

  /** Python's truth value of a cleaned value: `None`, `""` and `0.0` are
      false, every date is true. */
  predicate Truthy(v: Value) {
    match v
    case Absent => false
    case Text(t) => t != ""
    case Number(m, _) => m != 0
    case Calendar(_) => true
  }

  /** The characters the pattern `[^\d,/%]` leaves in place. */
  predicate Kept(c: char) {
    IsDigit(c) || c == ',' || c == '/' || c == '%'
  }

  /** `re.sub(r"[^\d,/%]", "", s)`: the kept characters of `s`, in order. */
  function Reduce(s: string): (r: string)
    ensures |r| <= |s|
    ensures forall i :: 0 <= i < |r| ==> Kept(r[i])
  {
    if s == [] then [] else (if Kept(s[0]) then [s[0]] else []) + Reduce(s[1..])
  }

  /** Reduction works character by character: reducing a concatenation
      concatenates the reductions, so the kept characters stay in the
      order of the input. */
  lemma {:induction false} ReduceAppend(a: string, b: string)
    ensures Reduce(a + b) == Reduce(a) + Reduce(b)
  {
    if a == [] {
      assert a + b == b;
    } else {
      var ab := a + b;
      assert ab[0] == a[0] && ab[1..] == a[1..] + b;
      ReduceAppend(a[1..], b);
      var head := if Kept(a[0]) then [a[0]] else [];
      assert Reduce(ab) == head + Reduce(a[1..] + b);
      assert Reduce(a) == head + Reduce(a[1..]);
    }
  }

  /** A single character survives reduction exactly when it is kept. */
  lemma ReduceChar(c: char)
    ensures Reduce([c]) == if Kept(c) then [c] else []
  {
    assert [c][1..] == [];
  }

  /** The decimal digits of `s`, in order. */
  function DigitsOf(s: string): (r: string)
    ensures AllDigits(r)
  {
    if s == [] then [] else (if IsDigit(s[0]) then [s[0]] else []) + DigitsOf(s[1..])
  }

  /** Python's `float(u)` on a string of digits, periods and slashes (the
      only strings `limpar_valor` passes to it): accepted when it is digits
      with at most one period and at least one digit. */
  function ParseFloat(u: string): Result<Value, ValueError>
    requires forall i :: 0 <= i < |u| ==> IsDigit(u[i]) || u[i] == '.' || u[i] == '/'
  {
    var parts := Split(u, '.');
    if |parts| > 2 then
      Failure(NotAFloat(u))
    else
      var whole := parts[0];
      var frac := if |parts| == 2 then parts[1] else "";
      if AllDigits(whole) && AllDigits(frac) && whole + frac != "" then
        assert AllDigits(whole + frac);
        Success(Number(ValueOf(whole + frac), |frac|))
      else
        Failure(NotAFloat(u))
  }

  /** Python's `int(s)` on a string of decimal digits: refused only when
      the string is empty. */
  function ParseInt(s: string): (r: Result<int, ValueError>)
    requires AllDigits(s)
    ensures r.Success? <==> s != ""
    ensures r.Success? ==> r.value == ValueOf(s) && r.value >= 0
  {
    if s == "" then Failure(NotAnInteger(s)) else Success(ValueOf(s))
  }

  /** `limpar_valor`. */
  function CleanValue(s: string): Result<Value, ValueError> {
    Classify(Reduce(s))
  }

  /** The classification `limpar_valor` applies to the reduced text. */
  function Classify(t: string): Result<Value, ValueError>
    requires forall i :: 0 <= i < |t| ==> Kept(t[i])
  {
    if '%' in t then
      Success(Absent)
    else if ',' in t then
      CommaReplaced(t);
      ParseFloat(ReplaceChar(t, ',', '.'))
    else if '/' in t then
      var parts := Split(t, '/');
      if |parts| != 2 then
        Failure(UnpackMismatch(|parts|))
      else
        SlashSides(t);
        var year :- ParseInt(parts[1]);
        var month :- ParseInt(parts[0]);
        match MakeDate(year, month, 1)
        case Success(d) => Success(Calendar(d))
        case Failure(e) => Failure(BadDate(e))
    else
      Success(Text(t))
  }

  /** With its commas turned into periods, a reduced text without percent
      sign holds only digits, periods and slashes. */
  lemma CommaReplaced(t: string)
    requires forall i :: 0 <= i < |t| ==> Kept(t[i])
    requires '%' !in t
    ensures var u := ReplaceChar(t, ',', '.');
      forall i :: 0 <= i < |u| ==> IsDigit(u[i]) || u[i] == '.' || u[i] == '/'
  {
    var u := ReplaceChar(t, ',', '.');
    forall i | 0 <= i < |u|
      ensures IsDigit(u[i]) || u[i] == '.' || u[i] == '/'
    {
      assert Kept(t[i]) && t[i] != '%';
    }
  }

  /** In a reduced text without percent sign or comma, the two sides of
      its one slash are digit strings. */
  lemma SlashSides(t: string)
    requires forall i :: 0 <= i < |t| ==> Kept(t[i])
    requires '%' !in t && ',' !in t && |Split(t, '/')| == 2
    ensures AllDigits(Split(t, '/')[0]) && AllDigits(Split(t, '/')[1])
  {
    var p := Split(t, '/');
    SplitTwo(t, '/');
    forall i | 0 <= i < |p[0]|
      ensures IsDigit(p[0][i])
    {
      assert p[0][i] == t[i];
    }
    forall i | 0 <= i < |p[1]|
      ensures IsDigit(p[1][i])
    {
      assert p[1][i] == t[|p[0]| + 1 + i];
    }
  }

  /** Reduction keeps every occurrence of a kept character. */
  lemma {:induction false} ReduceCount(s: string, c: char)
    requires Kept(c)
    ensures Count(Reduce(s), c) == Count(s, c)
  {
    if s != [] {
      ReduceCount(s[1..], c);
      var head := if Kept(s[0]) then [s[0]] else [];
      CountAppend(head, Reduce(s[1..]), c);
    }
  }

  /** A character survives reduction exactly when it is kept and occurs. */
  lemma ReduceMembers(s: string, c: char)
    ensures c in Reduce(s) <==> Kept(c) && c in s
  {
    if Kept(c) {
      ReduceCount(s, c);
      CountZero(s, c);
      CountZero(Reduce(s), c);
    }
  }

  /** Without commas, slashes and percent signs, reduction leaves exactly
      the digits. */
  lemma {:induction false} ReduceToDigits(s: string)
    requires ',' !in s && '/' !in s && '%' !in s
    ensures Reduce(s) == DigitsOf(s)
  {
    if s != [] {
      assert s[0] != ',' && s[0] != '/' && s[0] != '%';
      assert ',' !in s[1..] && '/' !in s[1..] && '%' !in s[1..];
      ReduceToDigits(s[1..]);
    }
  }

  /** `limpar_valor` gives `None` exactly when the text holds a percent sign. */
  lemma CleanValueAbsent(s: string)
    ensures CleanValue(s) == Success(Absent) <==> '%' in s
  {
    ReduceMembers(s, '%');
  }

  /** Digits exist in the reduced text exactly when they exist in the input. */
  lemma ReduceDigits(s: string)
    ensures (exists i :: 0 <= i < |s| && IsDigit(s[i])) <==>
            (exists k :: 0 <= k < |Reduce(s)| && IsDigit(Reduce(s)[k]))
  {
    var t := Reduce(s);
    if exists i :: 0 <= i < |s| && IsDigit(s[i]) {
      var i :| 0 <= i < |s| && IsDigit(s[i]);
      ReduceMembers(s, s[i]);
      var k :| 0 <= k < |t| && t[k] == s[i];
    }
    if exists k :: 0 <= k < |t| && IsDigit(t[k]) {
      var k :| 0 <= k < |t| && IsDigit(t[k]);
      ReduceMembers(s, t[k]);
      var i :| 0 <= i < |s| && s[i] == t[k];
    }
  }

  /** The two sides of the one comma of a reduced text are digit strings
      exactly when the text holds no slash. */
  lemma CommaSidesDigits(t: string)
    requires forall i :: 0 <= i < |t| ==> Kept(t[i])
    requires '%' !in t && |Split(t, ',')| == 2
    ensures var p := Split(t, ',');
      (AllDigits(p[0]) && AllDigits(p[1]) <==> '/' !in t)
  {
    var p := Split(t, ',');
    SplitTwo(t, ',');
    SidesDigits(t, p[0], p[1]);
  }

  lemma SidesDigits(t: string, a: string, b: string)
    requires t == a + [','] + b && ',' !in a && ',' !in b
    requires forall i :: 0 <= i < |t| ==> Kept(t[i])
    requires '%' !in t
    ensures AllDigits(a) && AllDigits(b) <==> '/' !in t
  {
    assert forall i :: 0 <= i < |a| ==> t[i] == a[i];
    assert forall i :: 0 <= i < |b| ==> t[|a| + 1 + i] == b[i];
    if '/' in t {
      var k :| 0 <= k < |t| && t[k] == '/';
      if k < |a| {
        assert a[k] == '/';
      } else if k > |a| {
        assert b[k - |a| - 1] == '/';
      }
    } else {
      forall i | 0 <= i < |a|
        ensures IsDigit(a[i])
      {
        assert Kept(t[i]) && t[i] != '%' && t[i] != '/' && a[i] != ',';
      }
      forall i | 0 <= i < |b|
        ensures IsDigit(b[i])
      {
        assert Kept(t[|a| + 1 + i]) && t[|a| + 1 + i] != '%' && t[|a| + 1 + i] != '/' && b[i] != ',';
      }
    }
  }

  /** When both sides are digit strings, they are not both empty exactly
      when the text holds some digit. */
  lemma CommaSidesNonEmpty(t: string)
    requires |Split(t, ',')| == 2
    requires AllDigits(Split(t, ',')[0]) && AllDigits(Split(t, ',')[1])
    ensures var p := Split(t, ',');
      (p[0] + p[1] != "" <==> exists k :: 0 <= k < |t| && IsDigit(t[k]))
  {
    var p := Split(t, ',');
    SplitTwo(t, ',');
    if p[0] != "" { assert IsDigit(t[0]); }
    else if p[1] != "" { assert t[1] == p[1][0]; }
    if exists k :: 0 <= k < |t| && IsDigit(t[k]) {
      var k :| 0 <= k < |t| && IsDigit(t[k]);
      assert k != |p[0]|;
    }
  }

  /** The comma branch on the reduced text: `float()` accepts the text
      with commas turned into periods exactly when there is one comma, no
      slash and some digit. */
  lemma CommaBranch(t: string)
    requires forall i :: 0 <= i < |t| ==> Kept(t[i])
    requires '%' !in t && ',' in t
    ensures var u := ReplaceChar(t, ',', '.');
      && (forall i :: 0 <= i < |u| ==> IsDigit(u[i]) || u[i] == '.' || u[i] == '/')
      && (ParseFloat(u).Success? <==>
          Count(t, ',') == 1 && '/' !in t && exists k :: 0 <= k < |t| && IsDigit(t[k]))
      && (ParseFloat(u).Success? ==>
          var p := Split(t, ',');
          |p| == 2 && AllDigits(p[0] + p[1]) && ParseFloat(u).value == Number(ValueOf(p[0] + p[1]), |p[1]|))
  {
    var u := ReplaceChar(t, ',', '.');
    CommaReplaced(t);
    assert forall k :: 0 <= k < |t| ==> t[k] != '.';
    assert '.' !in t;
    SplitReplaced(t, ',', '.');
    CountZero(t, ',');
    var p := Split(t, ',');
    if |p| == 2 {
      CommaSidesDigits(t);
      if AllDigits(p[0]) && AllDigits(p[1]) {
        CommaSidesNonEmpty(t);
      } else {
        assert !ParseFloat(u).Success?;
      }
    } else {
      assert ParseFloat(u) == Failure(NotAFloat(u));
    }
  }

  /** Without a percent sign, text holding a comma is read as a number:
      it is accepted exactly when it has one comma, no slash and some
      digit, and the number is the digits around the comma with as many
      decimal places as there are digits after it. */
  lemma CleanValueNumber(s: string)
    requires '%' !in s && ',' in s
    ensures CleanValue(s).Success? <==>
      Count(s, ',') == 1 && '/' !in s && exists i :: 0 <= i < |s| && IsDigit(s[i])
    ensures CleanValue(s).Success? ==>
      var p := Split(Reduce(s), ',');
      |p| == 2 && AllDigits(p[0] + p[1]) &&
      CleanValue(s).value == Number(ValueOf(p[0] + p[1]), |p[1]|)
  {
    var t := Reduce(s);
    ReduceMembers(s, '%');
    ReduceMembers(s, ',');
    ReduceMembers(s, '/');
    ReduceCount(s, ',');
    ReduceDigits(s);
    CommaBranch(t);
  }

  /** The slash branch on the reduced text: more than one slash fails to
      unpack; with one slash the two sides are digit strings, month before
      year, and the date is the first of that month when both are present
      and in range. */
  lemma SlashBranch(t: string)
    requires forall i :: 0 <= i < |t| ==> Kept(t[i])
    requires '%' !in t && ',' !in t && '/' in t
    ensures Count(t, '/') > 1 ==> Classify(t) == Failure(UnpackMismatch(Count(t, '/') + 1))
    ensures Count(t, '/') == 1 ==>
      var p := Split(t, '/');
      && |p| == 2 && AllDigits(p[0]) && AllDigits(p[1])
      && (Classify(t).Success? <==>
          p[0] != "" && p[1] != "" && MinYear <= ValueOf(p[1]) <= MaxYear && 1 <= ValueOf(p[0]) <= 12)
      && (Classify(t).Success? ==>
          Classify(t).value == Calendar(Date(ValueOf(p[1]), ValueOf(p[0]), 1)))
      && (p[0] != "" && p[1] != "" && MinYear <= ValueOf(p[1]) <= MaxYear && !(1 <= ValueOf(p[0]) <= 12)
          && ValueOf(p[0]) <= CIntMax ==>
          Classify(t) == Failure(BadDate(MonthOutOfRange(ValueOf(p[0])))))
  {
    if Count(t, '/') == 1 {
      var p := Split(t, '/');
      SlashSides(t);
      if p[0] == "" || p[1] == "" {
        assert Classify(t).Failure?;
      } else {
        SlashDate(t);
      }
    }
  }

  /** With both sides present, the slash branch is `date(year, month, 1)`. */
  lemma SlashDate(t: string)
    requires forall i :: 0 <= i < |t| ==> Kept(t[i])
    requires '%' !in t && ',' !in t && '/' in t && |Split(t, '/')| == 2
    requires AllDigits(Split(t, '/')[0]) && AllDigits(Split(t, '/')[1])
    requires Split(t, '/')[0] != "" && Split(t, '/')[1] != ""
    ensures var p := Split(t, '/');
      var r := MakeDate(ValueOf(p[1]), ValueOf(p[0]), 1);
      && (r.Success? ==> Classify(t) == Success(Calendar(r.value)))
      && (r.Failure? ==> Classify(t) == Failure(BadDate(r.error)))
  {
  }

  /** The errors of the slash branch once both sides are present: a year,
      then a month, too large for a C `int` overflows; otherwise a year
      outside 1..9999 is out of range. */
  lemma SlashErrors(t: string)
    requires forall i :: 0 <= i < |t| ==> Kept(t[i])
    requires '%' !in t && ',' !in t && Count(t, '/') == 1
    ensures var p := Split(t, '/');
      && |p| == 2 && AllDigits(p[0]) && AllDigits(p[1])
      && (p[0] != "" && p[1] != "" && ValueOf(p[1]) > CIntMax ==>
          Classify(t) == Failure(BadDate(ArgumentOverflow(ValueOf(p[1])))))
      && (p[0] != "" && p[1] != "" && ValueOf(p[1]) <= CIntMax && ValueOf(p[0]) > CIntMax ==>
          Classify(t) == Failure(BadDate(ArgumentOverflow(ValueOf(p[0])))))
      && (p[0] != "" && p[1] != "" && ValueOf(p[1]) <= CIntMax && ValueOf(p[0]) <= CIntMax
          && !(MinYear <= ValueOf(p[1]) <= MaxYear) ==>
          Classify(t) == Failure(BadDate(YearOutOfRange(ValueOf(p[1])))))
  {
    CountZero(t, '/');
    SlashSides(t);
  }

  /** Without a percent sign or a comma, text holding a slash is read as
      month/year: more than one slash fails to unpack; with one slash the
      digits before it are the month and the digits after it the year,
      and the date is the first of that month when both are present and
      in range. */
  lemma CleanValueDate(s: string)
    requires '%' !in s && ',' !in s && '/' in s
    ensures Count(s, '/') > 1 ==> CleanValue(s) == Failure(UnpackMismatch(Count(s, '/') + 1))
    ensures Count(s, '/') == 1 ==>
      var p := Split(Reduce(s), '/');
      && |p| == 2 && AllDigits(p[0]) && AllDigits(p[1])
      && (CleanValue(s).Success? <==>
          p[0] != "" && p[1] != "" && MinYear <= ValueOf(p[1]) <= MaxYear && 1 <= ValueOf(p[0]) <= 12)
      && (CleanValue(s).Success? ==>
          CleanValue(s).value == Calendar(Date(ValueOf(p[1]), ValueOf(p[0]), 1)))
      && (p[0] != "" && p[1] != "" && MinYear <= ValueOf(p[1]) <= MaxYear && !(1 <= ValueOf(p[0]) <= 12)
          && ValueOf(p[0]) <= CIntMax ==>
          CleanValue(s) == Failure(BadDate(MonthOutOfRange(ValueOf(p[0])))))
  {
    ReduceMembers(s, '%');
    ReduceMembers(s, ',');
    ReduceMembers(s, '/');
    ReduceCount(s, '/');
    SlashBranch(Reduce(s));
  }

  /** The remaining errors of a month/year cell with both numbers present:
      a year, then a month, too large for a C `int` raises
      `OverflowError`, and otherwise a year outside 1..9999 is out of
      range. */
  lemma CleanValueDateErrors(s: string)
    requires '%' !in s && ',' !in s && Count(s, '/') == 1
    ensures var p := Split(Reduce(s), '/');
      && |p| == 2 && AllDigits(p[0]) && AllDigits(p[1])
      && (p[0] != "" && p[1] != "" && ValueOf(p[1]) > CIntMax ==>
          CleanValue(s) == Failure(BadDate(ArgumentOverflow(ValueOf(p[1])))))
      && (p[0] != "" && p[1] != "" && ValueOf(p[1]) <= CIntMax && ValueOf(p[0]) > CIntMax ==>
          CleanValue(s) == Failure(BadDate(ArgumentOverflow(ValueOf(p[0])))))
      && (p[0] != "" && p[1] != "" && ValueOf(p[1]) <= CIntMax && ValueOf(p[0]) <= CIntMax
          && !(MinYear <= ValueOf(p[1]) <= MaxYear) ==>
          CleanValue(s) == Failure(BadDate(YearOutOfRange(ValueOf(p[1])))))
  {
    ReduceMembers(s, '%');
    ReduceMembers(s, ',');
    ReduceCount(s, '/');
    SlashErrors(Reduce(s));
  }

  /** Text with no percent sign, comma or slash stays text: its digits, in
      order, possibly none. */
  lemma CleanValueText(s: string)
    requires '%' !in s && ',' !in s && '/' !in s
    ensures CleanValue(s) == Success(Text(DigitsOf(s)))
  {
    ReduceMembers(s, '%');
    ReduceMembers(s, ',');
    ReduceMembers(s, '/');
    ReduceToDigits(s);
  }

  /** Text that reduces to digits, one comma and digits is the decimal
      number those digits spell, with as many places as follow the comma. */
  lemma CleanValueOfDecimal(s: string, whole: string, frac: string)
    requires AllDigits(whole) && AllDigits(frac) && whole + frac != ""
    requires Reduce(s) == whole + [','] + frac
    ensures AllDigits(whole + frac)
    ensures CleanValue(s) == Success(Number(ValueOf(whole + frac), |frac|))
  {
    var t := Reduce(s);
    assert forall i :: 0 <= i < |t| ==> t[i] == ',' || IsDigit(t[i]);
    assert ',' !in whole && ',' !in frac;
    SplitAround(whole, frac, ',');
    var c := if whole != "" then whole[0] else frac[0];
    assert c in t;
    ReduceMembers(s, c);
    ReduceMembers(s, '%');
    ReduceMembers(s, '/');
    ReduceMembers(s, ',');
    ReduceCount(s, ',');
    CleanValueNumber(s);
  }
}
