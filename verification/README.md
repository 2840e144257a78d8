# A Dafny model of five console programs

This project models the logic at the heart of five small C console
programs, separated from their `scanf`/`printf` loops:

- **converter.c**, a number-base converter. It covers:
  - the digit-set validators;
  - the binary parser `binToDec`, which wraps modulo 2^64;
  - the binary, octal and hex renderers;
  - the "bit-group" renderers, which spell every octal or hex digit as a 3-bit or 4-bit group and separate the groups by spaces.
- **bank.c**, an account ledger. It covers:
  - PIN lookup and PIN uniqueness;
  - registration;
  - deposit and withdraw;
  - the `name pin balance` line format that `saveAccounts` writes and `loadAccounts` reads.
- **tictactoe.c**, tic-tac-toe. It covers move legality, the choice-to-cell mapping, `checkWinner`, and the alternating turn loop of `main`.
- **employee.c**, a payroll. It covers:
  - the six-bracket monthly tax schedule `computeTax`;
  - the extra deductions;
  - total tax and net pay;
  - the table of at most 100 employees.
- **calc.c**, a calculator. Only its non-numeric state is modelled: the six-slot history (`add_history`) and the degrees/radians flag.

Operations are pure functions over immutable values, except three methods. Two have loops that follow the source's loops: `CalcHistory.AddHistory` (the bottom-up slot copy) and `Payroll.ReadExtras` (the extras loop with its running total). The third, `Payroll.RecordEmployee`, calls `ReadExtras`. Each method is proved to compute the same result as a pure function.
- Strings are `seq<char>`.
- `unsigned long long` values are `u64`, a subset of `nat` below 2^64, and the wrap-around is written out.
- Money in bank.c is whole cents.
- Money in employee.c is exact `real`.
- The interactive loops take their inputs as a sequence of answers.

Modules, one per program, plus two shared ones:

| module | file | models |
|---|---|---|
| `Wrappers` | wrappers.dfy | `Option` and `Result` |
| `Numerals` | numerals.dfy | digit sequences, their value, and the text of a number in a base (shared by the renderers) |
| `Converter` | converter.dfy | converter.c |
| `Bank` | bank.dfy | bank.c: the account table and its operations |
| `BankFile` | bankfile.dfy | bank.c: the saved record format |
| `TicTacToe` | tictactoe.dfy | tictactoe.c |
| `Payroll` | payroll.dfy | employee.c |
| `CalcHistory` | calc.dfy | calc.c: `add_history` and `show_radians` |

Notes on how the model reads the code:

- **tictactoe.c.** `playerMove` writes `board[(choice - 1) / 3][(choice - 1) % 3]`. The model keeps the board as nine characters row by row, so `PlayerMove` writes position `choice - 1`. `Row`, `Col` and `Cell` state the source's arithmetic with C's truncating `/` and `%`. `ChoiceCell` and `CellChoice` prove that for choices 1..9 this is the same cell, and that the mapping is a bijection onto the 3x3 cells. For choices outside 1..9, `&&` stops before the cell is read.
- **converter.c.** `printAll` is modelled as a `Report` value holding the six texts it prints.
- **bank.c.** The bank's `main` menu is modelled as a list of requests (`Bank.Apply`, `Bank.Run`).

## Model

| member | source | states |
|---|---|---|
| Numerals.ValueOfDigits | converter.c:42-50 | the digits that repeated division by the base produces, read back most significant first, are worth the number again |
| Numerals.Numeral | converter.c:34-52 | the printed text of a number: "0" for zero, no leading zero otherwise, every character a digit of the base, and the digits evaluate back to the number |
| Numerals.NumeralLength | converter.c:35 | a number below base^k takes at most k digits, which is what makes each renderer's output fit its buffer |
| Numerals.ValueAppend | converter.c:77 | appending digits shifts the value of the front part by the base to the power of the number of appended digits |
| Converter.DigitRun | converter.c:8-11 | the validator loop stops exactly at the first character outside the digit set, and every character before it is in the set |
| Converter.IsValidBinary | converter.c:7-13 | accepts exactly the strings of '0' and '1', including the empty string |
| Converter.IsValidOctal | converter.c:15-21 | accepts exactly the strings of '0'..'7', including the empty string |
| Converter.IsValidHex | converter.c:23-29 | accepts exactly the strings of hex digits in either case, including the empty string |
| Converter.BinToDecValue | converter.c:127-134 | on a valid binary string the wrapping accumulator ends at the string's value modulo 2^64 |
| Converter.StrToULLStops | converter.c:204 | strtoull (here and at line 216) stops at the first character outside the digit set, so whatever follows it never changes the value |
| Converter.BinToDecLeadingZero | converter.c:127-134 | a leading '0' does not change the result for any input |
| Converter.BinToDecLeadingZeros | converter.c:127-134 | any number of leading zeros leaves the result unchanged, and the empty string gives 0 |
| Converter.DecToBin | converter.c:34-52 | "0" for zero; otherwise a valid binary string starting with '1', at most 64 characters long, whose value is n |
| Converter.BinaryRoundTrip | converter.c:127-134 | parsing what decToBin writes gives back every 64-bit n |
| Converter.DecToOct | converter.c:55-57 | `%llo`: "0" for zero; otherwise octal digits with no leading zero, at most 22 of them, worth n |
| Converter.DecToHex | converter.c:60-62 | `%llX`: "0" for zero; otherwise upper-case hex digits with no leading zero, at most 16 of them, worth n |
| Converter.OctalRoundTrip | converter.c:204 | strtoull in base 8 reads back exactly the value decToOct printed |
| Converter.HexRoundTrip | converter.c:216 | strtoull in base 16 reads back exactly the value decToHex printed |
| Converter.OctalBitsTable | converter.c:76 | entry d of the octal table is a 3-character binary string whose value is d |
| Converter.HexBitsTable | converter.c:105-108 | entry d of the hex table is a 4-character binary string whose value is d |
| Converter.JoinGroupsLength | converter.c:83-90 | k groups of width w joined by single spaces take k(w+1)-1 characters, so there is no trailing space |
| Converter.LastSpaceOfJoin | converter.c:88 | in a join, the last space is the one written before the last group |
| Converter.SplitJoin | converter.c:84-89 | cutting the joined text at its spaces gives back exactly the groups that the reversing loop wrote, in order |
| Converter.GroupedText | converter.c:74-90 | for positive n: one group per digit, each the digit's code, length digits·(w+1)-1, and within the bound the digit count allows |
| Converter.DecToOctBits | converter.c:65-91 | "000" for zero; otherwise 4·(octal digits)-1 characters that split at spaces into the 3-bit codes of n's octal digits, most significant first, fitting the 256-byte buffer |
| Converter.DecToHexBits | converter.c:94-124 | "0000" for zero; otherwise 5·(hex digits)-1 characters that split at spaces into the 4-bit codes of n's hex digits, most significant first, fitting the 256-byte buffer |
| Converter.RemoveSpacesOfJoin | converter.c:84-89 | deleting the separators of a join of binary groups leaves the groups run together |
| Converter.ConcatOfCodes | converter.c:74-79 | the codes of base-2^w digits, run together, are a binary string worth the same number |
| Converter.OctBitsRoundTrip | converter.c:65-91 | deleting the spaces from decToOctBits(n) and parsing the rest with binToDec gives back n |
| Converter.HexBitsRoundTrip | converter.c:94-124 | deleting the spaces from decToHexBits(n) and parsing the rest with binToDec gives back n |
| Converter.DecimalLineShowsNegative | converter.c:137-150 | sixty-four '1's are valid binary and parse to 2^64-1, yet the Decimal line of printAll as written shows -1 |
| Converter.PrintAllAsWritten | converter.c:137-150 | printAll as written: the Decimal line is the `long long` reading of the value, that is the value itself below 2^63 and the value minus 2^64 from there on. Every other line is the same as in the corrected report |
| Converter.PrintAll | converter.c:137-155 | the corrected report: the Decimal line is the value itself. The binary and octal texts are valid digit strings within their 65-byte buffers, and the bit-group texts fit their 256-byte buffers |
| Converter.ReportReadsBack | converter.c:137-155 | with the corrected decimal line, every line of the report reads back as the value reported |
| Converter.CString | converter.c:186-187 | the C string a line buffer holds: the line up to its first NUL byte, which contains no NUL |
| Converter.CStringOfPlain | converter.c:186-187 | a line without a NUL byte is its own C string |
| Converter.Convert | converter.c:183-218 | options 1 to 3 check and convert the C string the line holds, up to its first NUL byte: text outside the digit set gives no report. Valid binary is reported at its value modulo 2^64, and valid octal or hex at its value capped at 2^64-1. The report is the (corrected) printAll of that value |
| Converter.NulEndsLine | converter.c:186-190 | whatever follows a NUL byte in the line never changes the report: it is the one for the text before the NUL |
| Converter.ConvertReadsBack | converter.c:183-218 | every line of a report that options 1 to 3 print reads back as the value reported |
| Bank.ScanName | bank.c:210-215 | `%49s` fails exactly on all-white-space input. Otherwise it reads a 1 to 49 character token: the start of the text after leading spaces, cut at 49 characters or at the next space |
| Bank.AllSpaces | bank.c:212-215 | skipping leading white space leaves nothing exactly when the input is all white space, which is when `%49s` fails |
| Bank.NameCut | bank.c:212-215 | `%49s` stops at the first white space or after 49 characters, and what it read is a valid name that the input starts with |
| Bank.FindFrom | bank.c:148-150 | the scan from an index returns the first later position holding the PIN, or -1 exactly when none does |
| Bank.FindAccountByPin | bank.c:147-152 | the smallest index holding the PIN, or -1 exactly when no account holds it |
| Bank.IsPinUnique | bank.c:158-160 | true exactly when no account holds the PIN |
| Bank.FindIsExact | bank.c:143-152 | with distinct PINs, looking up an account's PIN finds that very account |
| Bank.CheckPin | bank.c:226-233 | a PIN is refused as out of range exactly outside 1000..9999, and accepted exactly when in range and not held by any account |
| Bank.FirstAcceptedPin | bank.c:217-236 | the prompt loop stops at the first acceptable PIN; every earlier entry was refused |
| Bank.Register | bank.c:201-245 | a full table is refused, and with room a name prompt that reads nothing is refused too. Registration succeeds exactly when the table has room, a name was read and some entered PIN is acceptable. Success appends one account with that name, the first acceptable PIN entered and balance 0, and keeps earlier accounts as they were |
| Bank.RegisterPreserves | bank.c:226-241 | a registration keeps names valid, PINs pairwise distinct and balances non-negative, and the new account's PIN logs into it |
| Bank.AppendAccount | bank.c:238-241 | appending an account with a valid name, a PIN nobody holds and a non-negative balance keeps the table's invariants, and the PIN then logs into the new account |
| Bank.Deposit | bank.c:274-287 | refuses a bad index or an amount of at most 0. Otherwise only the logged-in account's balance grows, by the amount, and every other account is unchanged |
| Bank.Withdraw | bank.c:288-305 | refuses amounts of at most 0 and amounts above the balance. Otherwise only the logged-in account's balance shrinks, by the amount, and stays at or above 0 |
| Bank.DepositThenWithdraw | bank.c:281-303 | withdrawing what was just deposited restores the table exactly, when the balance was not negative |
| Bank.WithdrawWholeBalance | bank.c:299-303 | withdrawing exactly the balance is allowed and leaves 0; one cent more is refused |
| Bank.Apply | bank.c:344-359 | one menu request adds at most one account, only for a registration, and never changes the name or PIN of an existing account |
| Bank.ApplyPreserves | bank.c:344-359 | every menu request keeps the table well formed, PINs distinct and balances non-negative. It never removes an account and never changes an existing account's name or PIN |
| Bank.Run | bank.c:331-366 | a run of requests adds at most one account per request and never changes the name or PIN of an existing account |
| Bank.RunPreserves | bank.c:331-366 | the same holds over any run of requests |
| BankFile.IntText | bank.c:134-137 | `%d` writes at least one character, and starts with a minus sign exactly for a negative value |
| BankFile.CentsText | bank.c:134-137 | `%.2f` writes a point followed by exactly two decimals, and starts with a minus sign exactly for a negative amount |
| BankFile.Save | bank.c:126-141 | saveAccounts writes nothing for an empty table and otherwise ends with a newline. SaveLoad is its inverse |
| BankFile.ParseInt | bank.c:101 | the model's reading of a PIN field, a whole-token subset of what `%d` accepts: an accepted field is one token, and a negative value needs a leading minus sign. ParseIntText is its inverse |
| BankFile.ParseCents | bank.c:101 | the model's reading of a balance field, a whole-token subset of what `%lf` accepts: an accepted field is one token, and a negative amount needs a leading minus sign. ParseCentsText is its inverse |
| BankFile.TokensOfFields | bank.c:101 | three tokens joined by single spaces read back as exactly those three tokens |
| BankFile.ParseIntText | bank.c:134-137 | what `%d` writes is one token, and reading it with `%d` gives back the PIN, negative or not |
| BankFile.ParseCentsText | bank.c:134-137 | what `%.2f` writes for an amount in cents reads back with `%lf` as the same amount, negative or not |
| BankFile.ParseLine | bank.c:101-107 | a line is accepted only as three tokens whose first is the name, of 1 to 49 non-space characters; a line with a longer first token is not accepted |
| BankFile.LongNameSkipped | bank.c:101 | a record whose name is longer than `%49s` reads is skipped, whatever its PIN and balance fields hold |
| BankFile.ParseRecord | bank.c:101-108 | the line saveAccounts writes for an account parses back to that account |
| BankFile.RecordHasNoNewline | bank.c:134 | a record line holds no newline, so one account stays on one line |
| BankFile.LoadFrom | bank.c:95-116 | loading keeps every account already read, never exceeds 100 accounts, and keeps every name valid |
| BankFile.Load | bank.c:84-119 | the loaded table never holds more than 100 accounts, and every name has 1 to 49 characters |
| BankFile.Startup | bank.c:84-89 | without a data file the program starts with no accounts |
| BankFile.LoadFromSave | bank.c:95-116 | reading back a saved table appends it, account for account, to what was read before, as long as it fits |
| BankFile.SaveLoad | bank.c:133-138 | loading what saveAccounts wrote gives back the same table, for tables of at most 100 accounts with valid names |
| TicTacToe.ChoiceCell | tictactoe.c:54-55 | a choice 1..9 maps to row and column 0..2, and that cell is the choice's own position in reading order |
| TicTacToe.CellChoice | tictactoe.c:54-55 | every cell of the 3x3 board is reached by exactly one choice, so the mapping is a bijection |
| TicTacToe.PlayerMove | tictactoe.c:57-59 | a choice is taken exactly when it is 1..9 and its cell holds neither 'X' nor 'O'. The player's mark goes to that cell only |
| TicTacToe.TakeTurn | tictactoe.c:50-63 | the turn ends with a legal move taken from the answers read |
| TicTacToe.TakeTurnFirstLegal | tictactoe.c:50-63 | the turn takes the first legal answer, every earlier answer was refused, and it fails only if every answer is refused |
| TicTacToe.FirstLine | tictactoe.c:68-83 | finds the first line, in checkWinner's order, whose three cells are equal |
| TicTacToe.FirstLineFound | tictactoe.c:68-83 | a board has an equal line exactly when the scan finds one |
| TicTacToe.CheckWinner | tictactoe.c:66-97 | checkWinner's result is always 0, 1, 2 or 3. CheckWinnerClassifies states which |
| TicTacToe.CheckWinnerClassifies | tictactoe.c:66-97 | 1 or 2 exactly when some line has three equal cells, decided by the first such line ('X' gives 1). 3 exactly for a full board without one, and 0 exactly for a board with a free cell and without one |
| TicTacToe.EqualLineIsMarks | tictactoe.c:68-83 | on a board of a game every equal line is three equal marks, since the digits never make a line |
| TicTacToe.WinnerOwnsLine | tictactoe.c:68-83 | on such a board, checkWinner says 1 only with three 'X' in a line and 2 only with three 'O' in a line |
| TicTacToe.MarkCount | tictactoe.c:86-94 | the marks never outnumber the cells, and they fill the board exactly when there are as many as cells |
| TicTacToe.Other | tictactoe.c:21 | the next player is always a mark, and is the opponent when the current player is a mark |
| TicTacToe.OtherTwice | tictactoe.c:21 | switching the player twice gives the turn back to the same mark |
| TicTacToe.StartInv | tictactoe.c:10-12 | the starting board, with 'X' to move and no winner, satisfies the game invariant |
| TicTacToe.MovePreserves | tictactoe.c:57-59 | a taken move keeps the invariant: one more mark of the player's and the other player to move |
| TicTacToe.Round | tictactoe.c:14-22 | a round adds one move and hands the turn to the other player |
| TicTacToe.RoundPreserves | tictactoe.c:14-22 | a round keeps the invariant |
| TicTacToe.GameEnds | tictactoe.c:14-22 | a game never has more than nine moves, and after nine moves checkWinner is no longer 0, so the loop ends |
| TicTacToe.Play | tictactoe.c:14-22 | a finished game is left as it is, and the loop adds at most one move per answer read and never removes one |
| TicTacToe.PlayPreserves | tictactoe.c:14-22 | the loop keeps the invariant, never loses moves and never exceeds nine |
| TicTacToe.PlayFromStart | tictactoe.c:9-22 | a game from the start stays consistent, takes at most nine moves, and after nine it has a result |
| Payroll.ComputeTax | employee.c:28-42 | no tax up to 250000/12 a month, and never negative |
| Payroll.ComputeTaxIsMarginal | employee.c:28-42 | each bracket's formula is the marginal-rate schedule (0, 20, 25, 30, 32, 35 percent) applied to twelve times the salary, over twelve |
| Payroll.ContinuousAtThresholds | employee.c:29-41 | at each threshold the next bracket's formula gives the same tax, so the schedule has no jumps |
| Payroll.TaxMonotone | employee.c:28-42 | a raise never lowers the tax, at most 35% of a raise goes to tax, and so a raise never lowers net pay |
| Payroll.TakeExtras | employee.c:79-100 | at most five extras are kept, in input order, all positive, stopping at the first amount that is not positive, which is not kept |
| Payroll.TakeExtrasOfPrefix | employee.c:79-100 | any prefix that obeys the loop's stopping rule is exactly what the loop keeps |
| Payroll.SumPositive | employee.c:99 | positive extras never lower the total tax |
| Payroll.EmployeeOf | employee.c:69-104 | base tax is computeTax of the salary. There are no extras without a yes, and at most five with one. Total tax is the base tax plus the extras, and net pay is salary minus total tax |
| Payroll.ReadExtras | employee.c:78-100 | the extras loop, adding each amount to a running total as it goes, keeps exactly what TakeExtras keeps, and its total is their sum |
| Payroll.RecordEmployee | employee.c:69-104 | the source's statements, with the extras loop, build exactly the record EmployeeOf describes, with total tax at least the base tax |
| Payroll.Recorded | employee.c:49-112 | the do-while loop records at most 100 employees. It stops when the table is full or after an employee whose "another?" answer is not yes, and every earlier employee answered yes. The model also stops where its list of inputs ends |
| Payroll.Table | employee.c:45-112 | the final table holds one record per employee read, in input order, never more than 100 |
| CalcHistory.SlotText | calc.c:92-93 | what strncpy into a 64-byte slot leaves: a prefix of the entry with no NUL. It is at most 63 characters, cut only at 63 characters or at the entry's first NUL |
| CalcHistory.SlotTextFits | calc.c:88-89 | copying a slot into the next one keeps its text unchanged |
| CalcHistory.Push | calc.c:85-95 | slot 0 holds the entry cut to its slot. Each other slot holds the old slot above it, the old last slot is gone, and the count grows by one up to six and never shrinks |
| CalcHistory.AddHistory | calc.c:85-95 | the bottom-up copy loop yields [entry] + old slots 0..4, the same as Push |
| CalcHistory.AddAll | calc.c:85-95 | any run of add_history calls keeps six valid slots |
| CalcHistory.PushHoldsLast | calc.c:85-95 | if the slots hold the last six entries, newest first, then after one more add_history they hold the last six of the longer list |
| CalcHistory.AddAllFromEmpty | calc.c:312 | from the cleared start-up history, the slots hold the last six entries, newest first, with empty slots below, and the count is the number of entries up to six |
| CalcHistory.Toggle | calc.c:360-361 | the flag is always 0 or 1 after a toggle, and the mode shown on the HUD always changes |
| CalcHistory.ToggleTwice | calc.c:360-361 | a toggle always changes the mode and two toggles restore it |
| CalcHistory.ToggleParity | calc.c:51 | starting in degrees, the mode is radians exactly after an odd number of 'r' commands |

## Left out

- Input and output:
  - prompts, menus, banners, `printBoard`, `draw_hud`, `show_help` and the printing in `printAll`;
  - the model takes the values the user would type as parameters and returns what would be printed as values;
  - files are strings, and opening, closing and write failures of `accounts.txt` are not modelled.
- Converter.Convert: only options 1 to 3 are modelled. Option 4 is left out: it reads decimal text with `strtoull` in base 10 and checks the end pointer. Input lines longer than the 256-byte `fgets` buffer, whose rest is read as menu choices, are left out too.
- Converter.Convert: reports the corrected Decimal line (see Findings). For values from 2^63 on the source prints the negative `long long` reading, which `Converter.PrintAllAsWritten` models.
- Converter.StrToULL: handles digit text only. strtoull's leading white space, sign and `0x` prefix are not modelled, because the validators reject them before strtoull is called.
- BankFile.LoadFrom: reads one record per line and skips a line that is not exactly a name, a PIN and a balance. `fscanf("%49s %d %lf")` is token based, and its recovery on malformed input can split or join lines differently. For files that saveAccounts wrote, the two agree.
- BankFile.ParseLine: a line whose first token is longer than 49 characters is skipped. `fscanf` instead leaves the rest of the name for `%d`: the line is then skipped too when that rest does not start with a number, but when it does, those digits are read as the PIN and the following fields are misaligned. Saved files never hold such names, since registration reads at most 49 characters.
- BankFile.ParseInt: reads a PIN field only when the whole token is an optional sign and digits. `%d` reads the longest numeric prefix of the token and leaves the rest for `%lf` ("1234.5" gives 1234, then ".5"), and it overflows `int` silently. Files that saveAccounts wrote hold only whole integers here.
- BankFile.ParseCents: reads a balance field only when the whole token is an optional sign, digits, and optionally a point with one or two decimals. `%lf` also reads the numeric prefix of a longer token, three or more decimals ("5.123"), a trailing point ("5."), a leading point, exponents, hex floats and `inf`/`nan`, and rounds to `double`. Files that saveAccounts wrote always hold exactly two decimals.
- Bank.Deposit, Bank.Withdraw: amounts are whole cents instead of `double`, so there is no rounding. `%.2f` is exact on them.
- Bank.ScanName: the name input is taken to hold no NUL byte. `%49s` copies a NUL byte into `name` like any other non-space character, so the stored C string would end there, and would be empty when the token starts with one. The model keeps the whole token.
- Bank.Register: returns `NoAcceptedPin` when the entered PINs run out before one is acceptable, while the source keeps prompting forever. PINs are unbounded integers. The overflow of `int` in `readInt` and the re-prompt after non-numeric input are not modelled; the PIN list holds the integers that were read. A name prompt that reads nothing is modelled as an error result, whatever `scanf` does at end of input.
- Payroll.ComputeTax: uses exact `real` arithmetic, so `double` rounding of the bracket formulas is not modelled.
- Payroll.EmployeeOf: name, email and labels are kept as given. Overflow of their fixed buffers by `%[^\n]` is not modelled. The age is carried as read; overflow of its `%d` is not modelled.
- TicTacToe.TakeTurn: returns no move when the answers run out, while the source keeps prompting forever. This includes the case where `scanf` fails and `choice` keeps its old or uninitialised value.
- TicTacToe.Play: stops when the answers run out, for the same reason.
- Payroll.Recorded: stops when its list of inputs ends. At end of input the source's `scanf(" %c", &choice)` fails, `choice` keeps its last 'y', and the loop goes on recording employees from failed reads until the table holds 100.
- Payroll.TakeExtras: the offered extras are the amounts that were read. When `scanf("%lf", &extra)` fails, the source tests an uninitialised `extra`, so the number of extras it keeps then is not determined.
- calc.c:
  - the arithmetic, scientific and conversion operations, memory M+/M−/MC, the `strtod` last-result heuristic and `enable_ansi` are floating point or console API;
  - the entries `add_history` receives are produced by `snprintf` of doubles, so the model takes them as arbitrary strings.
- calc_mobile.c, activityextra.c and the lessons directory are not part of this model: they are library dispatch, random numbers and teaching snippets.

## Findings

| source | as written | input that shows it | evidently intended | confidence | as-written member | corrected member |
|---|---|---|---|---|---|---|
| converter.c:137-150 | `printAll` takes `long long`, and its Decimal line prints with `%lld`, so every value from 2^63 on shows as a negative number | binary input of sixty-four '1's: Binary line `111…1`, Decimal line `-1` | the Decimal line shows the same unsigned value as the other lines (`unsigned long long` and `%llu`) | high; not executed | Converter.DecimalLineShowsNegative | Converter.ReportReadsBack |

`Converter.PrintAllAsWritten` models the report as written. `Converter.PrintAll` is the corrected report, which `Converter.Convert` uses.
