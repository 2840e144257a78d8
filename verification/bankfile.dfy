/** The record format bank.c writes in saveAccounts and reads back in
    loadAccounts: one "name pin balance" line per account, the balance with
    two decimals. Balances are whole cents; the file itself is a string. */
module BankFile {
  import opened Wrappers
  import opened Numerals
  import opened Bank

  /** `%d`: a minus sign for negative values, then the decimal digits. */
  function IntText(i: int): (t: string)
    ensures |t| >= 1
    ensures t[0] == '-' <==> i < 0
  {
    var digits := Numeral(if i < 0 then -i else i, 10);
    DecimalDigitChar(CharValue(digits[0]));
    if i < 0 then "-" + digits else digits
  }

  /** `%.2f` of an amount held in cents. */
  function CentsText(c: int): (t: string)
    ensures |t| >= 4 && t[|t| - 3] == '.'
    ensures t[0] == '-' <==> c < 0
  {
    (if c < 0 then "-" else "") + AmountText(if c < 0 then -c else c)
  }

  /** `%.2f` of an amount of at least zero cents: the whole units, a point
      and always two decimals. */
  function AmountText(m: nat): (t: string)
    ensures |t| >= 4 && t[|t| - 3] == '.'
    ensures t[0] != '-'
  {
    DecimalDigitChar(CharValue(Numeral(m / 100, 10)[0]));
    Numeral(m / 100, 10) + "." + [DigitChar(m % 100 / 10), DigitChar(m % 10)]
  }

  /** The text of one account without its newline. */
  function RecordText(a: Account): string
  {
    a.name + " " + IntText(a.pin) + " " + CentsText(a.balance)
  }

  /** saveAccounts: every account, in table order, one line each. */
  function Save(s: Store): (text: string)
    ensures |s| == 0 <==> text == ""
    ensures |s| > 0 ==> text[|text| - 1] == '\n'
  {
    if |s| == 0 then "" else RecordText(s[0]) + "\n" + Save(s[1..])
  }

  /** A non-empty run of non-space characters. */
  predicate IsToken(w: string) {
    |w| >= 1 && forall j :: 0 <= j < |w| ==> !IsSpace(w[j])
  }

  /** The white-space separated tokens of a line. */
  function Tokens(s: string): (ts: seq<string>)
    ensures forall i :: 0 <= i < |ts| ==> IsToken(ts[i])
    decreases |s|
  {
    if |s| == 0 then []
    else if IsSpace(s[0]) then Tokens(s[1..])
    else
      var n := WordLength(s);
      var more := Tokens(s[n..]);
      [s[..n]] + more
  }

  predicate AllDecimal(s: string) {
    forall i :: 0 <= i < |s| ==> IsDecimalDigit(s[i])
  }

  function DecimalValue(s: string): nat {
    Value(DigitValues(s), 10)
  }

  /** `%d` on a whole token: an optional sign, then one or more digits. */
  function ParseInt(t: string): (r: Option<int>)
    ensures r.Some? ==> IsToken(t)
    ensures r.Some? && r.value < 0 ==> t[0] == '-'
  {
    if |t| > 0 && (t[0] == '-' || t[0] == '+') then
      var digits := t[1..];
      if |digits| > 0 && AllDecimal(digits) then
        var v: int := if t[0] == '-' then -(DecimalValue(digits) as int) else DecimalValue(digits);
        Some(v)
      else None
    else if |t| > 0 && AllDecimal(t) then Some(DecimalValue(t))
    else None
  }

  /** The first position of `c` in `s`, or `|s|` when there is none. */
  function IndexOf(s: string, c: char): (k: nat)
    ensures k <= |s|
    ensures forall i :: 0 <= i < k ==> s[i] != c
    ensures k < |s| ==> s[k] == c
  {
    if |s| == 0 || s[0] == c then 0 else 1 + IndexOf(s[1..], c)
  }

  /** `%lf` on a whole token, read in cents: an optional sign, one or more
      digits, and optionally a point and one or two more digits. */
  function ParseCents(t: string): (r: Option<int>)
    ensures r.Some? ==> IsToken(t)
    ensures r.Some? && r.value < 0 ==> t[0] == '-'
  {
    if |t| > 0 && t[0] == '-' then
      match ParseAmount(t[1..])
      case Some(m) => Some(-(m as int))
      case None => None
    else if |t| > 0 && t[0] == '+' then
      match ParseAmount(t[1..])
      case Some(m) => Some(m as int)
      case None => None
    else
      match ParseAmount(t)
      case Some(m) => Some(m as int)
      case None => None
  }

  /** An unsigned `%lf` amount in cents: digits, then optionally a point and
      one or two more digits. */
  function ParseAmount(body: string): (r: Option<nat>)
    ensures r.Some? ==> |body| >= 1 && IsDecimalDigit(body[0])
    ensures r.Some? ==> forall i :: 0 <= i < |body| ==> IsDecimalDigit(body[i]) || body[i] == '.'
  {
    var k := IndexOf(body, '.');
    var whole := body[..k];
    var frac := if k < |body| then body[k + 1..] else "";
    if |whole| == 0 || !AllDecimal(whole) then None
    else if k < |body| && !(1 <= |frac| <= 2 && AllDecimal(frac)) then None
    else
      var cents := if |frac| == 0 then 0
                   else if |frac| == 1 then CharValue(frac[0]) * 10
                   else CharValue(frac[0]) * 10 + CharValue(frac[1]);
      Some(DecimalValue(whole) * 100 + cents)
  }

  /** One line of the file as an account: exactly three tokens, a name of
      at most 49 characters, then a PIN and a balance. A longer first token
      makes `%49s` stop inside it and hand the rest to `%d`, which does not
      give back the saved record, so such a line is not accepted. */
  function ParseLine(line: string): (r: Option<Account>)
    ensures r.Some? ==> IsNameToken(r.value.name)
    ensures r.Some? ==> |Tokens(line)| == 3 && r.value.name == Tokens(line)[0]
    ensures |Tokens(line)| == 3 && |Tokens(line)[0]| >= MAX_NAME_LEN ==> r.None?
  {
    var ts := Tokens(line);
    if |ts| != 3 || |ts[0]| >= MAX_NAME_LEN then None
    else
      assert IsToken(ts[0]) && IsNameToken(ts[0]);
      match (ParseInt(ts[1]), ParseCents(ts[2]))
      case (Some(pin), Some(cents)) => Some(Account(ts[0], pin, cents))
      case _ => None
  }

  /** A record whose name is longer than `%49s` reads is skipped, whatever
      its PIN and balance fields hold. */
  lemma LongNameSkipped(w: string, p: string, b: string)
    requires IsToken(w) && IsToken(p) && IsToken(b) && |w| >= MAX_NAME_LEN
    ensures ParseLine(w + " " + p + " " + b).None?
  {
    TokensOfFields(w, p, b);
  }

  /** loadAccounts from `acc` on: reads line after line until the text ends
      or the table is full, and skips lines that do not parse. */
  function LoadFrom(text: string, acc: Store): (s: Store)
    requires WellFormed(acc)
    ensures WellFormed(s)
    ensures acc <= s
    decreases |text|
  {
    if |acc| >= MAX_ACCOUNTS || |text| == 0 then acc
    else
      var n := IndexOf(text, '\n');
      var rest := if n < |text| then text[n + 1..] else "";
      match ParseLine(text[..n])
      case Some(a) => LoadFrom(rest, acc + [a])
      case None => LoadFrom(rest, acc)
  }

  /** loadAccounts: the table read from the file's text. It never holds
      more than 100 accounts, and every name is a token of at most 49
      characters. */
  function Load(text: string): (s: Store)
    ensures |s| <= MAX_ACCOUNTS
    ensures forall i :: 0 <= i < |s| ==> 1 <= |s[i].name| <= MAX_NAME_LEN - 1
  {
    LoadFrom(text, [])
  }

  /** Program start: with no data file the table stays empty. */
  function Startup(file: Option<string>): (s: Store)
    ensures file.None? ==> s == []
    ensures WellFormed(s)
  {
    match file
    case None => []
    case Some(text) => Load(text)
  }

  /** A run of non-space characters followed by a space or the end is one
      word to the tokenizer. */
  lemma {:induction false} WordLengthOfWord(w: string, r: string)
    requires forall j :: 0 <= j < |w| ==> !IsSpace(w[j])
    requires |r| == 0 || IsSpace(r[0])
    ensures WordLength(w + r) == |w|
    decreases |w|
  {
    if |w| > 0 {
      assert (w + r)[0] == w[0];
      assert (w + r)[1..] == w[1..] + r;
      WordLengthOfWord(w[1..], r);
    } else {
      assert w + r == r;
    }
  }

  /** A token followed by a space and more text is the first token. */
  lemma TokensOfWord(w: string, rest: string)
    requires IsToken(w)
    ensures Tokens(w + " " + rest) == [w] + Tokens(rest)
  {
    var s := w + " " + rest;
    assert s == w + (" " + rest);
    WordLengthOfWord(w, " " + rest);
    assert s[0] == w[0];
    assert s[..|w|] == w;
    assert s[|w|..] == " " + rest;
    assert (" " + rest)[1..] == rest;
  }

  /** A token alone is one token. */
  lemma TokensOfLastWord(w: string)
    requires IsToken(w)
    ensures Tokens(w) == [w]
  {
    WordLengthOfWord(w, "");
    assert w + "" == w;
    assert w[|w|..] == "";
  }

  /** Decimal numerals are digit runs, so they are tokens and hold no sign,
      point or newline. */
  lemma DecimalNumeral(n: nat)
    ensures AllDecimal(Numeral(n, 10))
    ensures IsToken(Numeral(n, 10))
  {
    var s := Numeral(n, 10);
    forall i | 0 <= i < |s|
      ensures IsDecimalDigit(s[i])
    {
      DecimalDigitChar(CharValue(s[i]));
    }
  }

  /** `%d` on a digit run, with and without a minus sign. */
  lemma ParseDigits(t: string)
    requires |t| >= 1 && AllDecimal(t)
    ensures ParseInt(t) == Some(DecimalValue(t) as int)
    ensures ParseInt("-" + t) == Some(-(DecimalValue(t) as int))
    ensures IsToken(t) && IsToken("-" + t)
  {
    assert forall j :: 0 <= j < |t| ==> !IsSpace(t[j]) by {
      forall j | 0 <= j < |t| ensures !IsSpace(t[j]) {
        assert IsDecimalDigit(t[j]);
      }
    }
    assert forall j :: 1 <= j < |t| + 1 ==> ("-" + t)[j] == t[j - 1];
    assert t[0] != '-' && t[0] != '+' by { assert IsDecimalDigit(t[0]); }
    assert ("-" + t)[1..] == t;
  }

  /** `%d` reads back what `%d` wrote. */
  lemma ParseIntText(i: int)
    ensures IsToken(IntText(i))
    ensures ParseInt(IntText(i)) == Some(i)
  {
    var m := if i < 0 then -i else i;
    var n := Numeral(m, 10);
    assert AllDecimal(n) && DecimalValue(n) == m by {
      DecimalNumeral(m);
    }
    ParseDigits(n);
    if i < 0 {
      assert IntText(i) == "-" + n;
    } else {
      assert IntText(i) == n;
    }
  }

  /** The first '.' of a text whose first part holds none. */
  lemma {:induction false} IndexOfAfter(a: string, c: char, b: string)
    requires forall j :: 0 <= j < |a| ==> a[j] != c
    ensures IndexOf(a + [c] + b, c) == |a|
    decreases |a|
  {
    if |a| > 0 {
      assert (a + [c] + b)[1..] == a[1..] + [c] + b;
      IndexOfAfter(a[1..], c, b);
    }
  }

  /** The amount, in cents, that digits, a point and two more digits stand for. */
  function CentsOf(whole: string, x: char, y: char): nat {
    DecimalValue(whole) * 100 + CharValue(x) * 10 + CharValue(y)
  }

  /** Splitting an amount in cents at the point and at each decimal. */
  lemma CentsSplit(m: nat)
    ensures m == (m / 100) * 100 + (m % 100 / 10) * 10 + m % 10
  {
  }

  /** `%lf` on digits, a point and two more digits. */
  lemma ParseAmountDigits(whole: string, x: char, y: char)
    requires |whole| >= 1 && AllDecimal(whole)
    requires IsDecimalDigit(x) && IsDecimalDigit(y)
    ensures ParseAmount(whole + "." + [x, y]) == Some(CentsOf(whole, x, y))
  {
    var body := whole + "." + [x, y];
    assert forall j :: 0 <= j < |whole| ==> whole[j] != '.' by {
      forall j | 0 <= j < |whole| ensures whole[j] != '.' {
        assert IsDecimalDigit(whole[j]);
      }
    }
    IndexOfAfter(whole, '.', [x, y]);
    assert body[..|whole|] == whole;
    assert body[|whole| + 1..] == [x, y];
  }

  /** `%.2f` writes no white space. */
  lemma CentsTextIsToken(c: int)
    ensures IsToken(CentsText(c))
  {
    var m := if c < 0 then -c else c;
    AmountTextIsToken(m);
    assert CentsText(c) == (if c < 0 then "-" else "") + AmountText(m);
  }

  /** The unsigned part of `%.2f` is digits, a point and two digits. */
  lemma AmountTextIsToken(m: nat)
    ensures IsToken(AmountText(m))
  {
    var whole := Numeral(m / 100, 10);
    DecimalNumeral(m / 100);
    DecimalDigitChar(m % 100 / 10);
    DecimalDigitChar(m % 10);
    var body := AmountText(m);
    forall j | 0 <= j < |body| ensures !IsSpace(body[j]) {
      if j < |whole| {
        assert body[j] == whole[j] && IsDecimalDigit(whole[j]);
      }
    }
  }

  /** A minus sign in front of an amount negates it. */
  lemma SignedAmount(body: string, m: nat)
    requires ParseAmount(body) == Some(m)
    ensures ParseCents(body) == Some(m as int)
    ensures ParseCents("-" + body) == Some(-(m as int))
  {
    assert ("-" + body)[1..] == body;
  }

  /** `%lf` reads back the cents that `%.2f` wrote. */
  lemma ParseCentsText(c: int)
    ensures ParseCents(CentsText(c)) == Some(c)
  {
    var m := if c < 0 then -c else c;
    var body := AmountText(m);
    ParseAmountText(m);
    SignedAmount(body, m);
    if c < 0 {
      assert CentsText(c) == "-" + body;
    } else {
      assert CentsText(c) == body;
    }
  }

  /** `%lf` reads back the unsigned part of `%.2f`. */
  lemma ParseAmountText(m: nat)
    ensures ParseAmount(AmountText(m)) == Some(m)
  {
    var w, d1, d2 := m / 100, m % 100 / 10, m % 10;
    assert w * 100 + d1 * 10 + d2 == m by {
      CentsSplit(m);
    }
    ParseAmountParts(w, d1, d2);
  }

  /** `%lf` on the whole units, a point and two digits. */
  lemma ParseAmountParts(w: nat, d1: nat, d2: nat)
    requires d1 < 10 && d2 < 10
    ensures ParseAmount(Numeral(w, 10) + "." + [DigitChar(d1), DigitChar(d2)]) == Some(w * 100 + d1 * 10 + d2)
  {
    var whole, x, y := Numeral(w, 10), DigitChar(d1), DigitChar(d2);
    assert |whole| >= 1 && AllDecimal(whole) && DecimalValue(whole) == w by {
      DecimalNumeral(w);
    }
    assert CentsOf(whole, x, y) == w * 100 + d1 * 10 + d2 by {
      CharValueOfDigitChar(d1);
      CharValueOfDigitChar(d2);
    }
    DecimalDigitChar(d1);
    DecimalDigitChar(d2);
    ParseAmountDigits(whole, x, y);
  }

  /** Three tokens joined by single spaces split back into those tokens. */
  lemma TokensOfFields(w1: string, w2: string, w3: string)
    requires IsToken(w1) && IsToken(w2) && IsToken(w3)
    ensures Tokens(w1 + " " + w2 + " " + w3) == [w1, w2, w3]
  {
    var tail := w2 + " " + w3;
    assert Tokens(tail) == [w2, w3] by {
      TokensOfWord(w2, w3);
      TokensOfLastWord(w3);
    }
    assert w1 + " " + w2 + " " + w3 == w1 + " " + tail;
    TokensOfWord(w1, tail);
  }

  /** A line of three fields that each parse is the account they spell. */
  lemma ParseFields(name: string, p: string, b: string, pin: int, balance: int)
    requires IsNameToken(name) && IsToken(p) && IsToken(b)
    requires ParseInt(p) == Some(pin) && ParseCents(b) == Some(balance)
    ensures ParseLine(name + " " + p + " " + b) == Some(Account(name, pin, balance))
  {
    TokensOfFields(name, p, b);
    assert name[..|name|] == name;
  }

  /** A saved record parses back to the account it came from. */
  lemma ParseRecord(a: Account)
    requires IsNameToken(a.name)
    ensures ParseLine(RecordText(a)) == Some(a)
  {
    var p, b := IntText(a.pin), CentsText(a.balance);
    assert ParseLine(a.name + " " + p + " " + b) == Some(a) by {
      ParseIntText(a.pin);
      ParseCentsText(a.balance);
      CentsTextIsToken(a.balance);
      ParseFields(a.name, p, b, a.pin, a.balance);
    }
  }

  /** A record line holds no newline. */
  lemma RecordHasNoNewline(a: Account)
    requires IsNameToken(a.name)
    ensures forall j :: 0 <= j < |RecordText(a)| ==> RecordText(a)[j] != '\n'
  {
    var p, b := IntText(a.pin), CentsText(a.balance);
    assert IsToken(p) by {
      ParseIntText(a.pin);
    }
    CentsTextIsToken(a.balance);
    FieldsHaveNoNewline(a.name, p, b);
  }

  /** Three tokens joined by single spaces hold no newline. */
  lemma FieldsHaveNoNewline(w1: string, w2: string, w3: string)
    requires IsToken(w1) && IsToken(w2) && IsToken(w3)
    ensures forall j :: 0 <= j < |w1 + " " + w2 + " " + w3| ==> (w1 + " " + w2 + " " + w3)[j] != '\n'
  {
    var line := w1 + " " + w2 + " " + w3;
    forall j | 0 <= j < |line| ensures line[j] != '\n' {
      if j < |w1| {
        assert line[j] == w1[j];
      } else if j == |w1| {
      } else if j < |w1| + 1 + |w2| {
        assert line[j] == w2[j - |w1| - 1];
      } else if j == |w1| + 1 + |w2| {
      } else {
        assert line[j] == w3[j - |w1| - |w2| - 2];
      }
    }
  }

  /** One line that parses adds its account and moves on to the next line. */
  lemma LoadFromLine(line: string, rest: string, acc: Store, a: Account)
    requires WellFormed(acc) && |acc| < MAX_ACCOUNTS
    requires forall j :: 0 <= j < |line| ==> line[j] != '\n'
    requires ParseLine(line) == Some(a)
    ensures WellFormed(acc + [a])
    ensures LoadFrom(line + "\n" + rest, acc) == LoadFrom(rest, acc + [a])
  {
    var text := line + "\n" + rest;
    IndexOfAfter(line, '\n', rest);
    assert text[..|line|] == line;
    assert text[|line| + 1..] == rest;
    assert forall i :: 0 <= i < |acc| ==> (acc + [a])[i] == acc[i];
  }

  /** Reading back a saved table appends it, account for account, to what
      was already read, as long as it fits. */
  lemma {:induction false} LoadFromSave(s: Store, acc: Store)
    requires WellFormed(acc + s)
    ensures WellFormed(acc)
    ensures LoadFrom(Save(s), acc) == acc + s
    decreases |s|
  {
    if |s| == 0 {
      assert acc + s == acc;
    } else {
      var head, tail := s[0], s[1..];
      assert acc + s == (acc + [head]) + tail by {
        assert s == [head] + tail;
      }
      assert IsNameToken(head.name) && WellFormed(acc) by {
        assert (acc + s)[|acc|] == head;
        assert forall i :: 0 <= i < |acc| ==> (acc + s)[i] == acc[i];
      }
      assert LoadFrom(Save(s), acc) == LoadFrom(Save(tail), acc + [head]) by {
        assert Save(s) == RecordText(head) + "\n" + Save(tail);
        RecordHasNoNewline(head);
        ParseRecord(head);
        LoadFromLine(RecordText(head), Save(tail), acc, head);
      }
      LoadFromSave(tail, acc + [head]);
    }
  }

  /** saveAccounts then loadAccounts gives back the same table. */
  lemma SaveLoad(s: Store)
    requires WellFormed(s)
    ensures Load(Save(s)) == s
  {
    assert [] + s == s;
    LoadFromSave(s, []);
  }
}
