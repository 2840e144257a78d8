/** The account ledger of bank.c: lookup by PIN, registration, deposit and
    withdraw over the in-memory account table. Money is held in whole
    cents. */
module Bank {
  import opened Wrappers

  /** Capacity of the account table. */
  const MAX_ACCOUNTS: nat := 100
  /** `char name[MAX_NAME_LEN]`: 49 characters and the terminator. */
  const MAX_NAME_LEN: nat := 50
  const MIN_PIN: int := 1000
  const MAX_PIN: int := 9999

  /** One account; `balance` is in cents. */
  datatype Account = Account(name: string, pin: int, balance: int)

  /** The account table in insertion order; its length is `account_count`. */
  type Store = seq<Account>

  /** The characters C's `isspace` accepts: the separators `%s` stops at. */
  predicate IsSpace(c: char) {
    c == ' ' || '\t' <= c <= '\r'
  }

  /** A name as `scanf("%49s")` produces it: 1 to 49 non-space characters. */
  predicate IsNameToken(s: string) {
    && 1 <= |s| <= MAX_NAME_LEN - 1
    && forall i :: 0 <= i < |s| ==> !IsSpace(s[i])
  }

  /** What every table the program holds satisfies: within capacity, and
      every name a `%49s` token. */
  predicate WellFormed(s: Store) {
    && |s| <= MAX_ACCOUNTS
    && forall i :: 0 <= i < |s| ==> IsNameToken(s[i].name)
  }

  /** No two accounts share a PIN. */
  predicate DistinctPins(s: Store) {
    forall i, j :: 0 <= i < j < |s| ==> s[i].pin != s[j].pin
  }

  /** No balance is below zero. */
  predicate Solvent(s: Store) {
    forall i :: 0 <= i < |s| ==> s[i].balance >= 0
  }

  /** The white space at the front of `s` removed. */
  function SkipSpaces(s: string): (t: string)
    ensures |t| <= |s| && t == s[|s| - |t|..]
    ensures forall i :: 0 <= i < |s| - |t| ==> IsSpace(s[i])
    ensures |t| > 0 ==> !IsSpace(t[0])
  {
    if |s| == 0 || !IsSpace(s[0]) then s else SkipSpaces(s[1..])
  }

  /** The length of the run of non-space characters at the front of `s`. */
  function WordLength(s: string): (n: nat)
    ensures n <= |s|
    ensures forall i :: 0 <= i < n ==> !IsSpace(s[i])
    ensures n < |s| ==> IsSpace(s[n])
  {
    if |s| == 0 || IsSpace(s[0]) then 0 else 1 + WordLength(s[1..])
  }

  /** `scanf("%49s")`: skips white space, then reads at most 49 non-space
      characters; fails when only white space is left. */
  function ScanName(input: string): (tok: Option<string>)
    ensures tok.None? <==> forall i :: 0 <= i < |input| ==> IsSpace(input[i])
    ensures tok.Some? ==> IsNameToken(tok.value)
    ensures tok.Some? ==>
              var t := SkipSpaces(input);
              && tok.value <= t
              && (|tok.value| == MAX_NAME_LEN - 1 || |tok.value| == |t| || IsSpace(t[|tok.value|]))
  {
    var t := SkipSpaces(input);
    AllSpaces(input);
    if |t| == 0 then None else Some(t[..NameCut(t)])
  }

  /** Nothing is left after skipping white space exactly when the text is
      all white space. */
  lemma AllSpaces(s: string)
    ensures |SkipSpaces(s)| == 0 <==> forall i :: 0 <= i < |s| ==> IsSpace(s[i])
  {
    var t := SkipSpaces(s);
    if |t| > 0 {
      assert s[|s| - |t|] == t[0];
    }
  }

  /** Where `%49s` stops in text that starts with a non-space character:
      at the first white space, or after 49 characters. */
  function NameCut(t: string): (k: nat)
    requires |t| > 0 && !IsSpace(t[0])
    ensures 1 <= k <= |t| && k <= MAX_NAME_LEN - 1
    ensures forall i :: 0 <= i < k ==> !IsSpace(t[i])
    ensures k == MAX_NAME_LEN - 1 || k == |t| || IsSpace(t[k])
    ensures IsNameToken(t[..k]) && t[..k] <= t
  {
    var n := WordLength(t);
    if n < MAX_NAME_LEN then n else MAX_NAME_LEN - 1
  }

  /** findAccountByPin from index `from` on. */
  function FindFrom(s: Store, pin: int, from: nat): (r: int)
    requires from <= |s|
    ensures r == -1 || from <= r < |s|
    ensures r == -1 <==> forall i :: from <= i < |s| ==> s[i].pin != pin
    ensures r != -1 ==> s[r].pin == pin && forall i :: from <= i < r ==> s[i].pin != pin
    decreases |s| - from
  {
    if from == |s| then -1
    else if s[from].pin == pin then from
    else FindFrom(s, pin, from + 1)
  }

  /** findAccountByPin: the first index holding `pin`, or -1 when none. */
  function FindAccountByPin(s: Store, pin: int): (r: int)
    ensures -1 <= r < |s|
    ensures r == -1 <==> forall i :: 0 <= i < |s| ==> s[i].pin != pin
    ensures r != -1 ==> s[r].pin == pin && forall i :: 0 <= i < r ==> s[i].pin != pin
  {
    FindFrom(s, pin, 0)
  }

  /** isPinUnique: no account holds `pin`. */
  function IsPinUnique(s: Store, pin: int): (unique: bool)
    ensures unique <==> forall i :: 0 <= i < |s| ==> s[i].pin != pin
  {
    FindAccountByPin(s, pin) == -1
  }

  /** With distinct PINs, the lookup finds exactly the account holding it. */
  lemma FindIsExact(s: Store, i: nat)
    requires DistinctPins(s) && i < |s|
    ensures FindAccountByPin(s, s[i].pin) == i
  {
  }

  /** What one pass of registerAccount's PIN prompt makes of an entry. */
  datatype PinVerdict = PinAccepted | PinOutOfRange | PinInUse

  function CheckPin(s: Store, pin: int): (v: PinVerdict)
    ensures v == PinOutOfRange <==> pin < MIN_PIN || pin > MAX_PIN
    ensures v == PinAccepted <==>
              MIN_PIN <= pin <= MAX_PIN && forall i :: 0 <= i < |s| ==> s[i].pin != pin
  {
    if pin < MIN_PIN || pin > MAX_PIN then PinOutOfRange
    else if !IsPinUnique(s, pin) then PinInUse
    else PinAccepted
  }

  /** The PIN prompt loop over the PINs the user enters: the position of the
      first accepted one, or the number of entries when none is. */
  function FirstAcceptedPin(s: Store, pins: seq<int>): (k: nat)
    ensures k <= |pins|
    ensures forall j :: 0 <= j < k ==> CheckPin(s, pins[j]) != PinAccepted
    ensures k < |pins| ==> CheckPin(s, pins[k]) == PinAccepted
  {
    if |pins| == 0 then 0
    else if CheckPin(s, pins[0]) == PinAccepted then 0
    else 1 + FirstAcceptedPin(s, pins[1..])
  }

  /** Why a registration added nothing: the table is full, the name prompt
      read nothing, or no entered PIN was acceptable (the source keeps
      prompting). */
  datatype RegisterError = BankFull | NoName | NoAcceptedPin

  /** registerAccount: refuses when the table is full; otherwise reads the
      name, takes the first acceptable PIN, and appends the account with a
      zero balance. */
  function Register(s: Store, nameInput: string, pins: seq<int>): (r: Result<Store, RegisterError>)
    ensures |s| >= MAX_ACCOUNTS ==> r == Err(BankFull)
    ensures r.Ok? <==>
              && |s| < MAX_ACCOUNTS
              && ScanName(nameInput).Some?
              && exists j :: 0 <= j < |pins| && CheckPin(s, pins[j]) == PinAccepted
    ensures r.Ok? ==>
              && |r.value| == |s| + 1
              && r.value[..|s|] == s
              && r.value[|s|].name == ScanName(nameInput).value
              && r.value[|s|].balance == 0
              && r.value[|s|].pin in pins
              && CheckPin(s, r.value[|s|].pin) == PinAccepted
    ensures r.Ok? ==> r.value[|s|].pin == pins[FirstAcceptedPin(s, pins)]
    ensures |s| < MAX_ACCOUNTS && ScanName(nameInput).None? ==> r == Err(NoName)
  {
    if |s| >= MAX_ACCOUNTS then Err(BankFull)
    else match ScanName(nameInput)
      case None => Err(NoName)
      case Some(name) =>
        var k := FirstAcceptedPin(s, pins);
        if k == |pins| then Err(NoAcceptedPin)
        else
          var s' := s + [Account(name, pins[k], 0)];
          assert s'[..|s|] == s;
          Ok(s')
  }

  /** A successful registration keeps the table well formed, keeps PINs
      distinct, keeps balances non-negative, and the new account is the one
      its PIN logs into. */
  lemma RegisterPreserves(s: Store, nameInput: string, pins: seq<int>)
    requires WellFormed(s) && DistinctPins(s) && Solvent(s)
    requires Register(s, nameInput, pins).Ok?
    ensures var s' := Register(s, nameInput, pins).value;
            && WellFormed(s') && DistinctPins(s') && Solvent(s')
            && FindAccountByPin(s', s'[|s|].pin) == |s|
  {
    var s' := Register(s, nameInput, pins).value;
    var a := s'[|s|];
    assert s' == s + [a] by {
      assert s'[..|s|] == s;
    }
    AppendAccount(s, a);
  }

  /** Appending an account with a valid name, a PIN nobody holds and a
      non-negative balance keeps the table's invariants, and the PIN finds
      the new account. */
  lemma AppendAccount(s: Store, a: Account)
    requires WellFormed(s) && DistinctPins(s) && Solvent(s) && |s| < MAX_ACCOUNTS
    requires IsNameToken(a.name) && a.balance >= 0
    requires forall i :: 0 <= i < |s| ==> s[i].pin != a.pin
    ensures var s' := s + [a];
            && WellFormed(s') && DistinctPins(s') && Solvent(s')
            && FindAccountByPin(s', a.pin) == |s|
  {
    var s' := s + [a];
    assert forall i :: 0 <= i < |s| ==> s'[i] == s[i];
    FindIsExact(s', |s|);
  }

  /** Why a deposit or withdrawal changed nothing. */
  datatype TxError = BadIndex | NonPositiveAmount | InsufficientFunds

  /** The deposit branch of bankingMenu: a positive amount is added to the
      logged-in account. */
  function Deposit(s: Store, index: int, amount: int): (r: Result<Store, TxError>)
    ensures !(0 <= index < |s|) ==> r == Err(BadIndex)
    ensures 0 <= index < |s| && amount <= 0 ==> r == Err(NonPositiveAmount)
    ensures r.Ok? <==> 0 <= index < |s| && amount > 0
    ensures r.Ok? ==>
              && |r.value| == |s|
              && r.value[index].balance == s[index].balance + amount
              && r.value[index].name == s[index].name
              && r.value[index].pin == s[index].pin
              && forall j :: 0 <= j < |s| && j != index ==> r.value[j] == s[j]
  {
    if index < 0 || index >= |s| then Err(BadIndex)
    else if amount <= 0 then Err(NonPositiveAmount)
    else Ok(s[index := s[index].(balance := s[index].balance + amount)])
  }

  /** The withdraw branch of bankingMenu: a positive amount no larger than
      the balance is taken from the logged-in account. */
  function Withdraw(s: Store, index: int, amount: int): (r: Result<Store, TxError>)
    ensures !(0 <= index < |s|) ==> r == Err(BadIndex)
    ensures 0 <= index < |s| && amount <= 0 ==> r == Err(NonPositiveAmount)
    ensures 0 <= index < |s| && amount > s[index].balance && amount > 0 ==> r == Err(InsufficientFunds)
    ensures r.Ok? <==> 0 <= index < |s| && 0 < amount <= s[index].balance
    ensures r.Ok? ==>
              && |r.value| == |s|
              && 0 <= r.value[index].balance == s[index].balance - amount
              && r.value[index].name == s[index].name
              && r.value[index].pin == s[index].pin
              && forall j :: 0 <= j < |s| && j != index ==> r.value[j] == s[j]
  {
    if index < 0 || index >= |s| then Err(BadIndex)
    else if amount <= 0 then Err(NonPositiveAmount)
    else if amount > s[index].balance then Err(InsufficientFunds)
    else Ok(s[index := s[index].(balance := s[index].balance - amount)])
  }

  /** Withdrawing what was just deposited restores the table exactly, as
      long as the balance was not negative to begin with. */
  lemma DepositThenWithdraw(s: Store, index: int, amount: int)
    requires Deposit(s, index, amount).Ok?
    requires s[index].balance >= 0
    ensures Withdraw(Deposit(s, index, amount).value, index, amount) == Ok(s)
  {
    var d := Deposit(s, index, amount).value;
    assert 0 < amount <= d[index].balance;
    assert d[index := d[index].(balance := d[index].balance - amount)] == s;
  }

  /** Withdrawing the whole balance is allowed and leaves exactly zero; one
      cent more is refused. */
  lemma WithdrawWholeBalance(s: Store, index: int)
    requires 0 <= index < |s| && s[index].balance > 0
    ensures Withdraw(s, index, s[index].balance).Ok?
    ensures Withdraw(s, index, s[index].balance).value[index].balance == 0
    ensures Withdraw(s, index, s[index].balance + 1) == Err(InsufficientFunds)
  {
  }

  /** One operator action: register, or log in by PIN and deposit or
      withdraw. */
  datatype Request =
    | Open(nameInput: string, pins: seq<int>)
    | Put(pin: int, amount: int)
    | Take(pin: int, amount: int)

  /** The main menu applied to one request; a refused request changes
      nothing. */
  function Apply(s: Store, req: Request): (r: Store)
    ensures |s| <= |r| <= |s| + 1
    ensures |r| == |s| + 1 ==> req.Open?
    ensures forall i :: 0 <= i < |s| ==> r[i].name == s[i].name && r[i].pin == s[i].pin
  {
    match req
    case Open(nameInput, pins) =>
      (match Register(s, nameInput, pins) case Ok(s') => s' case Err(_) => s)
    case Put(pin, amount) =>
      (match Deposit(s, FindAccountByPin(s, pin), amount) case Ok(s') => s' case Err(_) => s)
    case Take(pin, amount) =>
      (match Withdraw(s, FindAccountByPin(s, pin), amount) case Ok(s') => s' case Err(_) => s)
  }

  /** The main menu over a run of requests: accounts are only ever added,
      at most one per request, and no name or PIN of an existing account
      changes. */
  function Run(s: Store, reqs: seq<Request>): (r: Store)
    ensures |s| <= |r| <= |s| + |reqs|
    ensures forall i :: 0 <= i < |s| ==> r[i].name == s[i].name && r[i].pin == s[i].pin
    decreases |reqs|
  {
    if |reqs| == 0 then s else Run(Apply(s, reqs[0]), reqs[1..])
  }

  /** Every request keeps the table well formed, PINs distinct and balances
      non-negative, never removes an account, and never changes an existing
      account's name or PIN. */
  lemma ApplyPreserves(s: Store, req: Request)
    requires WellFormed(s) && DistinctPins(s) && Solvent(s)
    ensures var s' := Apply(s, req);
            && WellFormed(s') && DistinctPins(s') && Solvent(s')
            && |s| <= |s'|
            && forall i :: 0 <= i < |s| ==> s'[i].name == s[i].name && s'[i].pin == s[i].pin
  {
    match req
    case Open(nameInput, pins) =>
      if Register(s, nameInput, pins).Ok? {
        RegisterPreserves(s, nameInput, pins);
        var s' := Register(s, nameInput, pins).value;
        assert forall i :: 0 <= i < |s| ==> s'[i] == s[i];
      }
    case Put(pin, amount) =>
      var d := Deposit(s, FindAccountByPin(s, pin), amount);
      if d.Ok? {
        BalanceOnly(s, d.value);
      }
    case Take(pin, amount) =>
      var w := Withdraw(s, FindAccountByPin(s, pin), amount);
      if w.Ok? {
        BalanceOnly(s, w.value);
      }
  }

  /** A table whose accounts keep their names and PINs and end with
      non-negative balances keeps the invariants. */
  lemma BalanceOnly(s: Store, s': Store)
    requires WellFormed(s) && DistinctPins(s)
    requires |s'| == |s|
    requires forall i :: 0 <= i < |s| ==> s'[i].name == s[i].name && s'[i].pin == s[i].pin && s'[i].balance >= 0
    ensures WellFormed(s') && DistinctPins(s') && Solvent(s')
  {
  }

  lemma {:induction false} RunPreserves(s: Store, reqs: seq<Request>)
    requires WellFormed(s) && DistinctPins(s) && Solvent(s)
    ensures var s' := Run(s, reqs);
            && WellFormed(s') && DistinctPins(s') && Solvent(s')
            && |s| <= |s'|
            && forall i :: 0 <= i < |s| ==> s'[i].name == s[i].name && s'[i].pin == s[i].pin
    decreases |reqs|
  {
    if |reqs| > 0 {
      ApplyPreserves(s, reqs[0]);
      RunPreserves(Apply(s, reqs[0]), reqs[1..]);
    }
  }
}
