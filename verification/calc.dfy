/** The state calc.c keeps besides its numbers: the history of the last six
    results, most recent first, and the degrees/radians flag. */
module CalcHistory {
  const HISTORY_SIZE: nat := 6

  /** Each history slot is a `char[64]`, so it holds at most 63 characters
      before its terminating NUL. */
  const SLOT_LEN: nat := 64

  /** A C string as a slot stores it: no NUL inside, at most 63 characters. */
  predicate IsSlotText(s: string) {
    |s| < SLOT_LEN && forall i :: 0 <= i < |s| ==> s[i] != '\0'
  }

  /** What `strncpy` into a 64-byte slot followed by writing a NUL into its
      last byte leaves there: the source string up to its first NUL, cut
      to 63 characters. */
  function SlotText(e: string): (t: string)
    ensures IsSlotText(t) && |t| <= |e|
    ensures t == e[..|t|]
    ensures |t| == SLOT_LEN - 1 || |t| == |e| || e[|t|] == '\0'
  {
    CopyUpTo(e, SLOT_LEN - 1)
  }

  /** The first `room` characters of `e`, stopping before a NUL. */
  function CopyUpTo(e: string, room: nat): (t: string)
    ensures |t| <= room && |t| <= |e|
    ensures t == e[..|t|]
    ensures forall i :: 0 <= i < |t| ==> t[i] != '\0'
    ensures |t| == room || |t| == |e| || e[|t|] == '\0'
  {
    if room == 0 || |e| == 0 || e[0] == '\0' then ""
    else [e[0]] + CopyUpTo(e[1..], room - 1)
  }

  /** Copying a string that already fits a slot keeps it as it is. */
  lemma {:induction false} CopyUpToFits(e: string, room: nat)
    requires |e| <= room && forall i :: 0 <= i < |e| ==> e[i] != '\0'
    ensures CopyUpTo(e, room) == e
  {
    if |e| > 0 {
      assert forall i :: 0 <= i < |e| - 1 ==> e[1..][i] == e[i + 1];
      CopyUpToFits(e[1..], room - 1);
      assert e == [e[0]] + e[1..];
    }
  }

  lemma SlotTextFits(e: string)
    requires IsSlotText(e)
    ensures SlotText(e) == e
  {
    CopyUpToFits(e, SLOT_LEN - 1);
  }

  /** The `history` array with `hist_count`. */
  datatype History = History(slots: seq<string>, count: nat)

  predicate Valid(h: History) {
    && |h.slots| == HISTORY_SIZE
    && h.count <= HISTORY_SIZE
    && forall i :: 0 <= i < HISTORY_SIZE ==> IsSlotText(h.slots[i])
  }

  /** The history after `memset` at start-up: six empty slots, count 0. */
  const EMPTY: History := History(seq(HISTORY_SIZE, _ => ""), 0)

  /** add_history as one step: the new entry on top, every other entry one
      slot further down, the oldest one gone, and the count capped at six. */
  function Push(h: History, entry: string): (r: History)
    requires Valid(h)
    ensures Valid(r)
    ensures r.slots[0] == SlotText(entry)
    ensures forall i :: 1 <= i < HISTORY_SIZE ==> r.slots[i] == h.slots[i - 1]
    ensures r.count >= h.count && r.count >= 1
    ensures h.count < HISTORY_SIZE ==> r.count == h.count + 1
  {
    History([SlotText(entry)] + h.slots[..HISTORY_SIZE - 1],
            if h.count < HISTORY_SIZE then h.count + 1 else h.count)
  }

  /** add_history as the source runs it: copy slot i-1 into slot i from the
      bottom up, then copy the entry into slot 0, each copy cut to the slot. */
  method AddHistory(h: History, entry: string) returns (r: History)
    requires Valid(h)
    ensures r == Push(h, entry)
    ensures r.slots == [SlotText(entry)] + h.slots[..HISTORY_SIZE - 1]
  {
    var slots := h.slots;
    var i := HISTORY_SIZE - 1;
    while i > 0
      invariant 0 <= i <= HISTORY_SIZE - 1
      invariant |slots| == HISTORY_SIZE
      invariant forall j :: 0 <= j <= i ==> slots[j] == h.slots[j]
      invariant forall j :: i < j < HISTORY_SIZE ==> slots[j] == h.slots[j - 1]
    {
      SlotTextFits(slots[i - 1]);
      slots := slots[i := SlotText(slots[i - 1])];
      i := i - 1;
    }
    slots := slots[0 := SlotText(entry)];
    var count := h.count;
    if count < HISTORY_SIZE {
      count := count + 1;
    }
    r := History(slots, count);
    assert r.slots == [SlotText(entry)] + h.slots[..HISTORY_SIZE - 1];
  }

  /** The history after a run of add_history calls, oldest entry first. */
  function AddAll(h: History, entries: seq<string>): (r: History)
    requires Valid(h)
    ensures Valid(r)
  {
    if |entries| == 0 then h
    else Push(AddAll(h, entries[..|entries| - 1]), entries[|entries| - 1])
  }

  /** `h` holds the last six of `entries`, newest in slot 0, each cut to its
      slot, with empty slots below them and the count of entries up to six. */
  predicate HoldsLast(h: History, entries: seq<string>)
    requires Valid(h)
  {
    && h.count == (if |entries| < HISTORY_SIZE then |entries| else HISTORY_SIZE)
    && (forall i :: 0 <= i < HISTORY_SIZE && i < |entries| ==> h.slots[i] == SlotText(entries[|entries| - 1 - i]))
    && (forall i :: |entries| <= i < HISTORY_SIZE ==> h.slots[i] == "")
  }

  /** One more add_history keeps a history holding the last entries. */
  lemma PushHoldsLast(h: History, entries: seq<string>, e: string)
    requires Valid(h) && HoldsLast(h, entries)
    ensures HoldsLast(Push(h, e), entries + [e])
  {
    var all := entries + [e];
    var h' := Push(h, e);
    forall i | 1 <= i < HISTORY_SIZE && i < |all|
      ensures h'.slots[i] == SlotText(all[|all| - 1 - i])
    {
      assert h'.slots[i] == h.slots[i - 1];
      assert all[|all| - 1 - i] == entries[|entries| - 1 - (i - 1)];
    }
  }

  /** From start-up, the history holds the last six entries, newest in slot
      0, each cut to its slot, and empty slots below them; the count is the
      number of entries, up to six. */
  lemma {:induction false} AddAllFromEmpty(entries: seq<string>)
    ensures var h := AddAll(EMPTY, entries);
            && h.count == (if |entries| < HISTORY_SIZE then |entries| else HISTORY_SIZE)
            && (forall i :: 0 <= i < HISTORY_SIZE && i < |entries| ==> h.slots[i] == SlotText(entries[|entries| - 1 - i]))
            && (forall i :: |entries| <= i < HISTORY_SIZE ==> h.slots[i] == "")
  {
    assert Valid(EMPTY) by {
      assert forall i :: 0 <= i < HISTORY_SIZE ==> EMPTY.slots[i] == "";
    }
    assert HoldsLast(AddAll(EMPTY, entries), entries) by {
      if |entries| > 0 {
        var init := entries[..|entries| - 1];
        AddAllFromEmpty(init);
        PushHoldsLast(AddAll(EMPTY, init), init, entries[|entries| - 1]);
        assert init + [entries[|entries| - 1]] == entries;
      }
    }
  }

  /** `show_radians`: 0 for degrees, which is how the program starts, and
      1 for radians. */
  const DEGREES: int := 0

  /** Command 'r': `show_radians = !show_radians`. */
  function Toggle(flag: int): (r: int)
    ensures r == 0 || r == 1
    ensures ModeName(r) != ModeName(flag)
  {
    if flag == 0 then 1 else 0
  }

  /** The flag only ever holds 0 or 1, each toggle changes the mode, and two
      toggles give back the mode the program had. */
  lemma ToggleTwice(flag: int)
    requires flag == 0 || flag == 1
    ensures Toggle(flag) != flag
    ensures Toggle(Toggle(flag)) == flag
  {
  }

  /** The mode's name on the HUD. */
  function ModeName(flag: int): string
  {
    if flag != 0 then "RAD" else "DEG"
  }

  /** The mode after a run of 'r' commands from start-up: radians exactly
      after an odd number of them. */
  function ToggleTimes(n: nat): (flag: int)
    ensures flag == 0 || flag == 1
  {
    if n == 0 then DEGREES else Toggle(ToggleTimes(n - 1))
  }

  lemma {:induction false} ToggleParity(n: nat)
    ensures ModeName(ToggleTimes(n)) == (if n % 2 == 1 then "RAD" else "DEG")
  {
    if n > 0 {
      ToggleParity(n - 1);
    }
  }
}
