/** The payroll of employee.c: the monthly base tax under the TRAIN-law
    schedule, the optional extra deductions, total tax and net pay, and the
    table of employees. Money is exact `real`. */
module Payroll {
  const MAX_EMPLOYEES: nat := 100
  const MAX_EXTRA_TAX: nat := 5

  /** Monthly salaries at which the schedule changes rate: the yearly
      thresholds 250000, 400000, 800000, 2000000 and 8000000 over twelve. */
  const B1: real := 250000.0 / 12.0
  const B2: real := 400000.0 / 12.0
  const B3: real := 800000.0 / 12.0
  const B4: real := 2000000.0 / 12.0
  const B5: real := 8000000.0 / 12.0

  /** computeTax: the base monthly tax of a monthly salary, bracket by
      bracket as the source writes it. */
  function ComputeTax(salary: real): (tax: real)
    ensures salary <= B1 ==> tax == 0.0
    ensures tax >= 0.0
  {
    if salary <= 250000.0 / 12.0 then 0.0
    else if salary <= 400000.0 / 12.0 then (salary * 12.0 - 250000.0) * 0.20 / 12.0
    else if salary <= 800000.0 / 12.0 then (30000.0 + (salary * 12.0 - 400000.0) * 0.25) / 12.0
    else if salary <= 2000000.0 / 12.0 then (130000.0 + (salary * 12.0 - 800000.0) * 0.30) / 12.0
    else if salary <= 8000000.0 / 12.0 then (490000.0 + (salary * 12.0 - 2000000.0) * 0.32) / 12.0
    else (2410000.0 + (salary * 12.0 - 8000000.0) * 0.35) / 12.0
  }

  /** The part of a yearly income that falls between `lo` and `hi`. */
  function Band(income: real, lo: real, hi: real): (part: real)
    requires lo <= hi
    ensures 0.0 <= part <= hi - lo
  {
    if income <= lo then 0.0 else if income >= hi then hi - lo else income - lo
  }

  /** The part of a yearly income above `lo`. */
  function Above(income: real, lo: real): (part: real)
    ensures part >= 0.0
  {
    if income <= lo then 0.0 else income - lo
  }

  /** The schedule read as marginal rates: nothing up to 250000 a year,
      then 20%, 25%, 30%, 32% and 35% on the part of the income in each
      successive band. */
  function YearlyTax(income: real): (tax: real)
    ensures tax >= 0.0
  {
    0.20 * Band(income, 250000.0, 400000.0)
    + 0.25 * Band(income, 400000.0, 800000.0)
    + 0.30 * Band(income, 800000.0, 2000000.0)
    + 0.32 * Band(income, 2000000.0, 8000000.0)
    + 0.35 * Above(income, 8000000.0)
  }

  /** computeTax is the marginal-rate schedule on twelve times the monthly
      salary: the constants 30000, 130000, 490000 and 2410000 are exactly
      the tax of all the lower bands. */
  lemma ComputeTaxIsMarginal(salary: real)
    ensures ComputeTax(salary) == YearlyTax(salary * 12.0) / 12.0
  {
  }

  /** At each threshold the bracket above starts where the one below ends:
      the next formula gives the same tax as computeTax at the threshold. */
  lemma ContinuousAtThresholds()
    ensures ComputeTax(B1) == (B1 * 12.0 - 250000.0) * 0.20 / 12.0
    ensures ComputeTax(B2) == (30000.0 + (B2 * 12.0 - 400000.0) * 0.25) / 12.0
    ensures ComputeTax(B3) == (130000.0 + (B3 * 12.0 - 800000.0) * 0.30) / 12.0
    ensures ComputeTax(B4) == (490000.0 + (B4 * 12.0 - 2000000.0) * 0.32) / 12.0
    ensures ComputeTax(B5) == (2410000.0 + (B5 * 12.0 - 8000000.0) * 0.35) / 12.0
  {
  }

  /** Each band grows with the income, and never faster than it. */
  lemma BandMonotone(x: real, y: real, lo: real, hi: real)
    requires x <= y && lo <= hi
    ensures 0.0 <= Band(y, lo, hi) - Band(x, lo, hi) <= y - x
  {
  }

  /** The bands of the schedule together never grow faster than the income. */
  lemma BandsTogether(x: real, y: real)
    requires x <= y
    ensures var d := (Band(y, 250000.0, 400000.0) - Band(x, 250000.0, 400000.0))
                   + (Band(y, 400000.0, 800000.0) - Band(x, 400000.0, 800000.0))
                   + (Band(y, 800000.0, 2000000.0) - Band(x, 800000.0, 2000000.0))
                   + (Band(y, 2000000.0, 8000000.0) - Band(x, 2000000.0, 8000000.0))
                   + (Above(y, 8000000.0) - Above(x, 8000000.0));
            d <= y - x
  {
  }

  /** A raise never lowers the tax, and at most 35 centavos of each extra
      peso go to tax, so a raise never lowers net pay either. */
  lemma TaxMonotone(s1: real, s2: real)
    requires s1 <= s2
    ensures ComputeTax(s1) <= ComputeTax(s2)
    ensures ComputeTax(s2) - ComputeTax(s1) <= 0.35 * (s2 - s1)
    ensures s1 - ComputeTax(s1) <= s2 - ComputeTax(s2)
  {
    var x, y := s1 * 12.0, s2 * 12.0;
    ComputeTaxIsMarginal(s1);
    ComputeTaxIsMarginal(s2);
    BandMonotone(x, y, 250000.0, 400000.0);
    BandMonotone(x, y, 400000.0, 800000.0);
    BandMonotone(x, y, 800000.0, 2000000.0);
    BandMonotone(x, y, 2000000.0, 8000000.0);
    BandsTogether(x, y);
  }

  /** One extra deduction: its label (SSS, PhilHealth, ...) and its amount. */
  datatype Extra = Extra(labelText: string, amount: real)

  /** The extras the loop keeps from the ones offered: at most `room` of
      them, stopping at the first amount that is not positive, which is
      not kept. */
  function TakeExtras(offered: seq<Extra>, room: nat): (kept: seq<Extra>)
    ensures |kept| <= room && |kept| <= |offered|
    ensures kept == offered[..|kept|]
    ensures forall i :: 0 <= i < |kept| ==> kept[i].amount > 0.0
    ensures |kept| == room || |kept| == |offered| || offered[|kept|].amount <= 0.0
  {
    if room == 0 || |offered| == 0 || offered[0].amount <= 0.0 then []
    else [offered[0]] + TakeExtras(offered[1..], room - 1)
  }

  /** The sum of the amounts. */
  function Sum(xs: seq<Extra>): real {
    if |xs| == 0 then 0.0 else Sum(xs[..|xs| - 1]) + xs[|xs| - 1].amount
  }

  /** One loop step of ReadExtras: keeping the next offered extra extends the
      kept prefix by one and its sum by that extra's amount. */
  lemma KeepNext(offered: seq<Extra>, n: nat)
    requires n < |offered|
    ensures offered[..n] + [offered[n]] == offered[..n + 1]
    ensures Sum(offered[..n + 1]) == Sum(offered[..n]) + offered[n].amount
  {
    assert offered[..n + 1][..n] == offered[..n];
  }

  /** Positive amounts add up to something positive once there is one. */
  lemma {:induction false} SumPositive(xs: seq<Extra>)
    requires forall i :: 0 <= i < |xs| ==> xs[i].amount > 0.0
    ensures Sum(xs) >= 0.0
    ensures |xs| > 0 ==> Sum(xs) > 0.0
  {
    if |xs| > 0 {
      SumPositive(xs[..|xs| - 1]);
    }
  }

  /** What is read for one employee: the details, the y/n answer about
      extras, the extras offered, and the y/n answer about another employee. */
  datatype Input = Input(name: string, age: int, email: string, salary: real,
                         extrasAnswer: char, offered: seq<Extra>, anotherAnswer: char)

  /** One row of the employee table. */
  datatype Employee = Employee(name: string, age: int, email: string, salary: real,
                               tax: real, extras: seq<Extra>, totalTax: real, netPay: real)

  predicate IsYes(c: char) {
    c == 'y' || c == 'Y'
  }

  /** The record `main` builds from one employee's input. */
  function EmployeeOf(input: Input): (e: Employee)
    ensures e.tax == ComputeTax(input.salary)
    ensures |e.extras| <= MAX_EXTRA_TAX
    ensures !IsYes(input.extrasAnswer) ==> e.extras == []
    ensures e.totalTax == e.tax + Sum(e.extras)
    ensures e.netPay == input.salary - e.totalTax
  {
    var tax := ComputeTax(input.salary);
    var extras := if IsYes(input.extrasAnswer) then TakeExtras(input.offered, MAX_EXTRA_TAX) else [];
    var total := tax + Sum(extras);
    Employee(input.name, input.age, input.email, input.salary, tax, extras, total, input.salary - total)
  }

  /** The body of `main`'s loop for one employee: the tax, the extras when
      the answer is yes, then the totals. */
  method RecordEmployee(input: Input) returns (e: Employee)
    ensures e == EmployeeOf(input)
    ensures e.totalTax >= e.tax >= 0.0
    ensures e.extras == (if IsYes(input.extrasAnswer) then TakeExtras(input.offered, MAX_EXTRA_TAX) else [])
  {
    var tax := ComputeTax(input.salary);
    var extras: seq<Extra> := [];
    var extraTotal := 0.0;
    if IsYes(input.extrasAnswer) {
      extras, extraTotal := ReadExtras(input.offered);
    }
    SumPositive(extras);
    var totalTax := tax + extraTotal;
    e := Employee(input.name, input.age, input.email, input.salary, tax, extras, totalTax, input.salary - totalTax);
  }

  /** The extras loop as the source runs it: each amount kept is added to
      the running total, and the first amount that is not positive, or the
      fifth extra, ends the loop. */
  method ReadExtras(offered: seq<Extra>) returns (extras: seq<Extra>, total: real)
    ensures extras == TakeExtras(offered, MAX_EXTRA_TAX)
    ensures total == Sum(extras)
  {
    extras := [];
    total := 0.0;
    var i := 0;
    while i < MAX_EXTRA_TAX
      invariant 0 <= i <= MAX_EXTRA_TAX
      invariant |extras| == i && i <= |offered|
      invariant extras == offered[..i]
      invariant forall j :: 0 <= j < i ==> offered[j].amount > 0.0
      invariant total == Sum(extras)
    {
      if i >= |offered| {
        break;
      }
      var extra := offered[i];
      if extra.amount <= 0.0 {
        break;
      }
      KeepNext(offered, i);
      extras := extras + [extra];
      total := total + extra.amount;
      i := i + 1;
    }
    TakeExtrasOfPrefix(offered, extras);
  }

  /** The loop's stopping rule pins down what it kept: a prefix of positive
      amounts that ends at five, at the end of the input, or just before a
      non-positive amount is what TakeExtras keeps. */
  lemma {:induction false} TakeExtrasOfPrefix(offered: seq<Extra>, kept: seq<Extra>)
    requires |kept| <= MAX_EXTRA_TAX && |kept| <= |offered| && kept == offered[..|kept|]
    requires forall j :: 0 <= j < |kept| ==> kept[j].amount > 0.0
    requires |kept| == MAX_EXTRA_TAX || |kept| == |offered| || offered[|kept|].amount <= 0.0
    ensures TakeExtras(offered, MAX_EXTRA_TAX) == kept
  {
    TakeExtrasUnique(offered, kept, MAX_EXTRA_TAX);
  }

  lemma {:induction false} TakeExtrasUnique(offered: seq<Extra>, kept: seq<Extra>, room: nat)
    requires |kept| <= room && |kept| <= |offered| && kept == offered[..|kept|]
    requires forall j :: 0 <= j < |kept| ==> kept[j].amount > 0.0
    requires |kept| == room || |kept| == |offered| || offered[|kept|].amount <= 0.0
    ensures TakeExtras(offered, room) == kept
    decreases room
  {
    if |kept| > 0 {
      assert offered[0] == kept[0];
      assert kept[1..] == offered[1..][..|kept| - 1];
      TakeExtrasUnique(offered[1..], kept[1..], room - 1);
      assert kept == [kept[0]] + kept[1..];
    }
  }

  /** How many employees `main`'s do-while loop records with room for
      `room` more: it stops when the table is full, after an employee whose
      "another?" answer is not yes, or when the given inputs run out. Every
      employee but the last recorded asked for another. */
  function Recorded(inputs: seq<Input>, room: nat): (n: nat)
    ensures n <= room && n <= |inputs|
    ensures n == room || n == |inputs| || (n >= 1 && !IsYes(inputs[n - 1].anotherAnswer))
    ensures forall i :: 0 <= i < n - 1 ==> IsYes(inputs[i].anotherAnswer)
    decreases room
  {
    if room == 0 || |inputs| == 0 then 0
    else if !IsYes(inputs[0].anotherAnswer) then 1
    else
      var m := Recorded(inputs[1..], room - 1);
      assert forall i :: 0 <= i < m ==> inputs[1..][i] == inputs[i + 1];
      1 + m
  }

  /** The employee table at the end of `main`: one record per employee
      read, in input order, never more than MAX_EMPLOYEES. */
  function Table(inputs: seq<Input>): (r: seq<Employee>)
    ensures |r| == Recorded(inputs, MAX_EMPLOYEES) && |r| <= MAX_EMPLOYEES
    ensures forall i :: 0 <= i < |r| ==> r[i] == EmployeeOf(inputs[i])
  {
    var n := Recorded(inputs, MAX_EMPLOYEES);
    seq(n, i requires 0 <= i < n => EmployeeOf(inputs[i]))
  }
}
