/** The `<N>` placeholders of a queued command (src/thread.cpp:53-62): each
    `<N>` with 1 <= N <= 9 is replaced, brackets included, by the value
    captured into slot N of the nine slots `MyVal` by earlier commands of the
    same list.

    The source loop looks for the next `<` from a position it only moves to a
    found `<`; when the placeholder there is invalid (N outside 1..9, or the
    slot still empty) it prints an error and looks again from the same `<`,
    forever. `Pass` and `SubstituteInPlace` model that loop as written;
    `Substitute` is the evidently intended total substitution, which leaves an
    invalid placeholder as text and moves on. */
module Template {
  import opened Text
  import Decimal

  const SlotCount: nat := 9

  /** The nine slots `MyVal`; an empty string is an empty slot. */
  type Slots = s: seq<string> | |s| == SlotCount witness ["", "", "", "", "", "", "", "", ""]

  const NoValues: Slots := ["", "", "", "", "", "", "", "", ""]

  /** Size of `unsigned int`: `lexical_cast<unsigned int>` rejects larger
      numbers, and the `- 1` of the slot index wraps modulo this. */
  const Word: nat := 0x1_0000_0000

  const Open: char := '<'
  const Close: char := '>'

  /** Slot index computed from a placeholder number `n`: `n - 1` in unsigned
      arithmetic, so `<0>` wraps to the largest index. */
  function SlotIndex(n: nat): (k: nat)
    requires n < Word
    ensures k < Word
    ensures k < SlotCount <==> 1 <= n <= SlotCount
    ensures 1 <= n ==> k + 1 == n
  {
    (n + Word - 1) % Word
  }

  /** Closing bracket and number of the placeholder opened at a `<`; the
      closing position is the length of the text when no `>` follows. */
  datatype Body = Body(close: nat, number: nat)

  /** Where the placeholder opened at `p` ends: at the first `>` after it,
      or at the end of the text when there is none (`find_first_of` then
      gives `npos`, and `substr` reads to the end). */
  function CloseOf(t: string, p: nat): (c: nat)
    requires p < |t| && t[p] == Open
    ensures p < c <= |t|
    ensures c < |t| ==> t[c] == Close
    ensures forall j :: p < j < c ==> t[j] != Close
  {
    match FindFrom(t, Close, p)
    case None => |t|
    case Some(c) => c
  }

  /** The text resumes after a placeholder ending at `close`: past its `>`,
      or at the end when it has none. */
  function After(t: string, close: nat): nat
    requires close <= |t|
  {
    if close < |t| then close + 1 else |t|
  }

  predicate IsSign(c: char) {
    c == '+' || c == '-'
  }

  /** The digits of a number after its optional sign. */
  function Unsigned(s: string): string {
    if s != [] && IsSign(s[0]) then s[1..] else s
  }

  /** The value of a string of decimal digits; `None` when some character
      is not a digit. */
  function Magnitude(d: string): Option<nat>
    decreases |d|
  {
    if d == [] then Some(0)
    else if !Decimal.IsDigit(d[|d| - 1]) then None
    else match Magnitude(d[..|d| - 1])
      case None => None
      case Some(m) => Some(m * 10 + Decimal.DigitValue(d[|d| - 1]))
  }

  /** `Magnitude` reads exactly the digit strings, as their decimal value. */
  lemma {:induction false} MagnitudeValue(d: string)
    ensures Magnitude(d).Some? <==> Decimal.AllDigits(d)
    ensures Magnitude(d).Some? ==> Magnitude(d).value == Decimal.Value(d)
    decreases |d|
  {
    if d != [] {
      var init := d[..|d| - 1];
      MagnitudeValue(init);
      assert Decimal.AllDigits(d) <==> Decimal.AllDigits(init) && Decimal.IsDigit(d[|d| - 1]) by {
        assert forall i :: 0 <= i < |init| ==> init[i] == d[i];
      }
    }
  }

  /** The number `lexical_cast<unsigned int>` reads from `s`: an optional
      `+` or `-`, then at least one decimal digit, whose value must be below
      2^32; a `-` negates the value modulo 2^32. `None` when the cast
      throws. */
  function ReadUnsigned(s: string): Option<nat> {
    var d := Unsigned(s);
    if d == [] then None
    else match Magnitude(d)
      case None => None
      case Some(m) =>
        if m >= Word then None
        else if s[0] == '-' then Some((Word - m) % Word)
        else Some(m)
  }

  /** The cast succeeds exactly on a sign-optional, non-empty digit string
      whose value fits 32 bits; the number is that value, or its negation
      modulo 2^32 after a `-`. */
  lemma ReadUnsignedAccepts(s: string)
    ensures var d := Unsigned(s);
      ReadUnsigned(s).Some? <==> d != [] && Decimal.AllDigits(d) && Decimal.Value(d) < Word
    ensures ReadUnsigned(s).Some? ==> ReadUnsigned(s).value < Word
    ensures ReadUnsigned(s).Some? && s[0] != '-' ==> ReadUnsigned(s).value == Decimal.Value(Unsigned(s))
    ensures ReadUnsigned(s).Some? && s[0] == '-' ==>
      (ReadUnsigned(s).value + Decimal.Value(Unsigned(s))) % Word == 0
  {
    MagnitudeValue(Unsigned(s));
  }

  /** Every number below 2^32 written in decimal is read back, with or
      without a `+`; written after a `-` it is read as its negation modulo
      2^32. */
  lemma ReadUnsignedFromNat(n: nat)
    requires n < Word
    ensures ReadUnsigned(Decimal.FromNat(n)) == Some(n)
    ensures ReadUnsigned("+" + Decimal.FromNat(n)) == Some(n)
    ensures ReadUnsigned("-" + Decimal.FromNat(n)) == Some((Word - n) % Word)
  {
    var d := Decimal.FromNat(n);
    Decimal.ValueFromNat(n);
    assert !IsSign(d[0]);
    ReadUnsignedAccepts(d);
    ReadUnsignedAccepts("+" + d);
    ReadUnsignedAccepts("-" + d);
    assert Unsigned("+" + d) == d;
    assert Unsigned("-" + d) == d;
  }

  /** The digits `t[a..b]` read as a number, most significant first;
      `None` when some character is not a digit. */
  function MagnitudeAt(t: string, a: nat, b: nat): Option<nat>
    requires a <= b <= |t|
    decreases b - a
  {
    if b == a then Some(0)
    else if !Decimal.IsDigit(t[b - 1]) then None
    else match MagnitudeAt(t, a, b - 1)
      case None => None
      case Some(m) => Some(m * 10 + Decimal.DigitValue(t[b - 1]))
  }

  lemma {:induction false} MagnitudeAtSlice(t: string, a: nat, b: nat)
    requires a <= b <= |t|
    ensures MagnitudeAt(t, a, b) == Magnitude(t[a..b])
    decreases b - a
  {
    if b > a {
      MagnitudeAtSlice(t, a, b - 1);
      assert t[a..b][..b - a - 1] == t[a..b - 1];
    }
  }

  /** `ReadUnsigned` of `t[a..b]`, reading the text in place. */
  function ReadAt(t: string, a: nat, b: nat): Option<nat>
    requires a <= b <= |t|
  {
    var from := if a < b && IsSign(t[a]) then a + 1 else a;
    if from == b then None
    else match MagnitudeAt(t, from, b)
      case None => None
      case Some(m) =>
        if m >= Word then None
        else if t[a] == '-' then Some(if m == 0 then 0 else Word - m)
        else Some(m)
  }

  lemma ReadAtSlice(t: string, a: nat, b: nat)
    requires a <= b <= |t|
    ensures ReadAt(t, a, b) == ReadUnsigned(t[a..b])
  {
    var s := t[a..b];
    var from := if a < b && IsSign(t[a]) then a + 1 else a;
    assert Unsigned(s) == t[from..b];
    MagnitudeAtSlice(t, from, b);
  }

  /** The placeholder opened at `p`: where it ends, and the number
      `lexical_cast<unsigned int>` reads from the text in between. `None`
      exactly when the cast throws. */
  function Cast(t: string, p: nat): (r: Option<Body>)
    requires p < |t| && t[p] == Open
    ensures r.Some? ==> r.value.close == CloseOf(t, p) && r.value.number < Word
  {
    var close := CloseOf(t, p);
    match ReadAt(t, p + 1, close)
    case None => None
    case Some(n) => Some(Body(close, n))
  }

  /** The cast throws exactly when the text between the `<` and where its
      placeholder ends is not a number `lexical_cast` reads; otherwise the
      number is the one read. */
  lemma CastReads(t: string, p: nat)
    requires p < |t| && t[p] == Open
    ensures var body := t[p + 1..CloseOf(t, p)];
      && (Cast(t, p).None? <==> ReadUnsigned(body).None?)
      && (Cast(t, p).Some? ==> Cast(t, p).value.number == ReadUnsigned(body).value)
  {
    ReadAtSlice(t, p + 1, CloseOf(t, p));
  }

  /** The cast reads a sign: `<+1>` names slot 1, while `<-1>` is 2^32 - 1
      and names no slot. A `<` with no `>` after it reads to the end of the
      text. */
  lemma SignedAndUnclosed(t: string, u: string, w: string)
    requires t == "<+1>" && u == "<-1>" && w == "id=<7"
    ensures Cast(t, 0) == Some(Body(3, 1))
    ensures Cast(u, 0) == Some(Body(3, Word - 1))
    ensures Cast(w, 3) == Some(Body(5, 7))
  {
    ReadUnsignedFromNat(1);
    ReadUnsignedFromNat(7);
    assert Decimal.FromNat(1) == "1" && Decimal.FromNat(7) == "7";
    assert FindFrom(t, Close, 0) == Some(3) by {
      FindFromSkip(t, Close, 0, 3);
    }
    assert FindFrom(u, Close, 0) == Some(3) by {
      FindFromSkip(u, Close, 0, 3);
    }
    assert FindFrom(w, Close, 3) == None;
    assert t[1..3] == "+" + "1";
    assert u[1..3] == "-" + "1";
    assert w[4..5] == "7";
    CastReads(t, 0);
    CastReads(u, 0);
    CastReads(w, 3);
  }

  /** What a valid placeholder is replaced by, and where it ends. */
  datatype Replacement = Replacement(close: nat, value: string)

  /** The placeholder at `p` is valid when its number names one of the nine
      slots and that slot holds a value. */
  function Placeholder(t: string, p: nat, slots: Slots): (r: Option<Replacement>)
    requires p < |t| && t[p] == Open
    ensures r.Some? <==>
      Cast(t, p).Some? && 1 <= Cast(t, p).value.number <= SlotCount && slots[Cast(t, p).value.number - 1] != []
    ensures r.Some? ==> r.value.close == Cast(t, p).value.close
    ensures r.Some? ==> r.value.value == slots[Cast(t, p).value.number - 1] && r.value.value != []
  {
    match Cast(t, p)
    case None => None
    case Some(b) =>
      var k := SlotIndex(b.number);
      if k < SlotCount && slots[k] != [] then Some(Replacement(b.close, slots[k])) else None
  }

  // ---------------------------------------------------------------------------
  // The intended substitution

  /** What scanning from a position finds: no `<` left; a valid placeholder
      at `at`, whose replacement gives `next` and where scanning resumes
      after the inserted value; or an invalid `<` at `at`. */
  datatype Scan = Done | Replaced(at: nat, next: string, resume: nat) | Invalid(at: nat)

  function ScanFrom(t: string, pos: nat, slots: Slots): (r: Scan)
    requires pos <= |t|
    ensures !r.Done? ==> pos <= r.at < |t|
    ensures r.Replaced? ==> r.resume <= |r.next|
  {
    match FindFrom(t, Open, pos)
    case None => Done
    case Some(p) =>
      match Placeholder(t, p, slots)
      case Some(rep) => Replaced(p, t[..p] + rep.value + t[After(t, rep.close)..], p + |rep.value|)
      case None => Invalid(p)
  }

  /** The scan stops at the first `<` from `pos`, and replaces exactly the
      placeholder that opens there when it is valid: through its `>`, or to
      the end of the text when it has none. */
  lemma ScanFacts(t: string, pos: nat, slots: Slots)
    requires pos <= |t|
    ensures var r := ScanFrom(t, pos, slots);
      && (r.Done? <==> forall j :: pos <= j < |t| ==> t[j] != Open)
      && (!r.Done? ==> t[r.at] == Open && forall j :: pos <= j < r.at ==> t[j] != Open)
      && (r.Invalid? ==> Placeholder(t, r.at, slots).None?)
      && (r.Replaced? ==>
            && Placeholder(t, r.at, slots).Some?
            && var rep := Placeholder(t, r.at, slots).value;
            && r.next == t[..r.at] + rep.value + t[After(t, rep.close)..]
            && r.resume == r.at + |rep.value|)
  {
  }

  /** A replacement leaves less text to scan: the placeholder removed is
      longer than the nothing the scan skips past. */
  lemma ScanShrinks(t: string, pos: nat, slots: Slots)
    requires pos <= |t|
    ensures var r := ScanFrom(t, pos, slots);
      r.Replaced? ==> |r.next| - r.resume < |t| - pos
  {
    ScanFacts(t, pos, slots);
  }

  /** Scanning from anywhere in a stretch without `<` finds the same thing. */
  lemma ScanSkip(t: string, a: nat, b: nat, slots: Slots)
    requires a <= b <= |t|
    requires forall j :: a <= j < b ==> t[j] != Open
    ensures ScanFrom(t, a, slots) == ScanFrom(t, b, slots)
  {
    FindFromSkip(t, Open, a, b);
  }

  /** Substitution of the text from `pos` on: every valid placeholder is
      replaced by its slot's value and scanning resumes after that value;
      an invalid `<` is kept and scanning resumes after it. */
  function SubstituteFrom(t: string, pos: nat, slots: Slots): (r: string)
    requires pos <= |t|
    decreases |t| - pos
  {
    match ScanFrom(t, pos, slots)
    case Done => t
    case Replaced(_, next, resume) =>
      assert |next| - resume < |t| - pos by { ScanShrinks(t, pos, slots); }
      SubstituteFrom(next, resume, slots)
    case Invalid(at) => SubstituteFrom(t, at + 1, slots)
  }

  /** From a position with no `<` after it the text is left as it is. */
  lemma SubstituteNoOpen(t: string, pos: nat, slots: Slots)
    requires pos <= |t| && forall j :: pos <= j < |t| ==> t[j] != Open
    ensures SubstituteFrom(t, pos, slots) == t
  {
    ScanFacts(t, pos, slots);
  }

  /** The command text sent for a template. */
  function Substitute(t: string, slots: Slots): (r: string)
    ensures Open !in t ==> r == t
  {
    SubstituteFrom(t, 0, slots)
  }

  /** Every `<` the substitution meets from `pos` on opens a valid
      placeholder. */
  predicate AllValidFrom(t: string, pos: nat, slots: Slots)
    requires pos <= |t|
    decreases |t| - pos
  {
    match ScanFrom(t, pos, slots)
    case Done => true
    case Replaced(_, next, resume) =>
      assert |next| - resume < |t| - pos by { ScanShrinks(t, pos, slots); }
      AllValidFrom(next, resume, slots)
    case Invalid(_) => false
  }

  /** Number of placeholders the substitution replaces from `pos` on. */
  ghost function Remaining(t: string, pos: nat, slots: Slots): nat
    requires pos <= |t|
    decreases |t| - pos
  {
    match ScanFrom(t, pos, slots)
    case Done => 0
    case Replaced(_, next, resume) =>
      assert |next| - resume < |t| - pos by { ScanShrinks(t, pos, slots); }
      1 + Remaining(next, resume, slots)
    case Invalid(at) => Remaining(t, at + 1, slots)
  }

  /** The source's loop terminates only if no slot value holds a `<`
      (an inserted value is scanned again) and every `<` met is valid. */
  predicate WellFormed(t: string, slots: Slots) {
    && (forall k :: 0 <= k < SlotCount ==> Open !in slots[k])
    && AllValidFrom(t, 0, slots)
  }

  // ---------------------------------------------------------------------------
  // The loop as written

  /** The loop's state: the command text and the position `ParamPos`. */
  datatype Cursor = Cursor(text: string, pos: nat)

  /** The next `<` from the cursor, if any, opens a placeholder whose
      number `lexical_cast` accepts (otherwise the cast throws). */
  predicate Castable(c: Cursor) {
    && c.pos <= |c.text|
    && match FindFrom(c.text, Open, c.pos)
       case None => true
       case Some(p) => Cast(c.text, p).Some?
  }

  /** The text starts with a `<` that no `>` follows. */
  predicate UnclosedHead(t: string) {
    |t| > 0 && t[0] == Open && CloseOf(t, 0) == |t|
  }

  /** How many characters the source's `replace` removes at the `<` at `p`
      whose placeholder ends at `close`: through the `>`. With no `>`, the
      length `npos - p` stored in an `int` is `-1 - p`, so the count passed
      is `-p` as a `size_t`: nothing when `p` is 0, and everything to the
      end of the text otherwise. */
  function RemovedAsWritten(t: string, p: nat, close: nat): (n: nat)
    requires p < close <= |t|
    ensures p + n <= |t|
  {
    if close < |t| then close + 1 - p
    else if p == 0 then 0
    else |t| - p
  }

  /** One iteration of the source's loop. `None` when no `<` is left and the
      loop exits; otherwise the cursor moves to the `<` found, which is
      replaced when valid and left alone when not. Unlike the intended scan,
      the cursor never moves past the `<` it found, and a valid placeholder
      without `>` at the very start of the text is not removed: its value is
      inserted in front of it. */
  function Pass(c: Cursor, slots: Slots): (r: Option<Cursor>)
    requires Castable(c)
    ensures r.None? <==> ScanFrom(c.text, c.pos, slots).Done?
    ensures r.Some? ==> r.value.pos == ScanFrom(c.text, c.pos, slots).at
  {
    ScanFacts(c.text, c.pos, slots);
    match FindFrom(c.text, Open, c.pos)
    case None => None
    case Some(p) =>
      var b := Cast(c.text, p).value;
      var k := SlotIndex(b.number);
      if k < SlotCount && slots[k] != [] then
        Some(Cursor(c.text[..p] + slots[k] + c.text[p + RemovedAsWritten(c.text, p, b.close)..], p))
      else
        Some(Cursor(c.text, p))
  }

  /** What one iteration leaves: the text the intended scan produces, except
      for a valid unclosed placeholder at the start of the text, which gets
      its value inserted in front; an invalid `<` leaves the text alone. */
  lemma PassFollowsScan(c: Cursor, slots: Slots)
    requires Castable(c)
    ensures var s := ScanFrom(c.text, c.pos, slots);
      s.Replaced? && !(s.at == 0 && UnclosedHead(c.text)) ==> Pass(c, slots) == Some(Cursor(s.next, s.at))
    ensures var s := ScanFrom(c.text, c.pos, slots);
      s.Replaced? && s.at == 0 && UnclosedHead(c.text) ==>
        Pass(c, slots) == Some(Cursor(s.next[..s.resume] + c.text, 0))
    ensures var s := ScanFrom(c.text, c.pos, slots);
      s.Invalid? ==> Pass(c, slots) == Some(Cursor(c.text, s.at))
  {
    var s := ScanFrom(c.text, c.pos, slots);
    ScanFacts(c.text, c.pos, slots);
    if s.Replaced? {
      var t := c.text;
      var p := s.at;
      var b := Cast(t, p).value;
      var rep := Placeholder(t, p, slots).value;
      assert rep == Replacement(b.close, slots[SlotIndex(b.number)]);
      var n := RemovedAsWritten(t, p, b.close);
      if p == 0 && UnclosedHead(t) {
        assert s.next[..s.resume] == rep.value;
        assert t[..p] + rep.value + t[p + n..] == rep.value + t;
      } else {
        assert p + n == After(t, b.close);
      }
    }
  }

  /** At an invalid placeholder the loop reaches a state that one more
      iteration maps to itself without exiting, so it never ends. */
  lemma PassStalls(c: Cursor, slots: Slots)
    requires Castable(c) && ScanFrom(c.text, c.pos, slots).Invalid?
    ensures Castable(Pass(c, slots).value)
    ensures Pass(Pass(c, slots).value, slots) == Pass(c, slots)
  {
    var c' := Pass(c, slots).value;
    assert FindFrom(c'.text, Open, c'.pos) == Some(c'.pos);
  }

  /** A command that uses a slot no earlier command has filled: the loop
      sticks on its `<` for good. */
  lemma EmptySlotStalls(t: string)
    requires t == "clientinfo clid=<1>"
    ensures Castable(Cursor(t, 0))
    ensures Pass(Cursor(t, 0), NoValues) == Some(Cursor(t, 16))
    ensures Pass(Cursor(t, 16), NoValues) == Some(Cursor(t, 16))
  {
    assert forall j :: 0 <= j < 16 ==> t[j] != Open;
    FindFromSkip(t, Open, 0, 16);
    assert FindFrom(t, Open, 16) == Some(16);
    assert FindFrom(t, Close, 16) == Some(18) by {
      assert FindFrom(t, Close, 18) == Some(18);
    }
    assert t[17..18] == "1";
    assert Decimal.Value("1") == 1 by {
      assert "1"[..0] == [];
    }
    PassStalls(Cursor(t, 0), NoValues);
  }

  /** A value holding `<` is scanned again by the loop: `<1>` with slot 1
      holding `<2>` and slot 2 holding `y` becomes `<2>`, then `y`, and the
      loop exits, while the intended substitution sends `<2>`. */
  lemma ValueRescanned(t: string, u: string, slots: Slots)
    requires t == "<1>" && u == "<2>" && slots == NoValues[0 := u][1 := "y"]
    ensures Castable(Cursor(t, 0)) && Pass(Cursor(t, 0), slots) == Some(Cursor(u, 0))
    ensures Castable(Cursor(u, 0)) && Pass(Cursor(u, 0), slots) == Some(Cursor("y", 0))
    ensures Castable(Cursor("y", 0)) && Pass(Cursor("y", 0), slots) == None
    ensures Substitute(t, slots) == u
  {
    ReadUnsignedFromNat(1);
    ReadUnsignedFromNat(2);
    assert Decimal.FromNat(1) == "1" == t[1..2];
    assert Decimal.FromNat(2) == "2" == u[1..2];
    CastOfBody(t, 0, 2, 1);
    CastOfBody(u, 0, 2, 2);
    assert FindFrom(t, Open, 0) == Some(0);
    assert FindFrom(u, Open, 0) == Some(0);
    assert FindFrom("y", Open, 0) == None;
    assert SlotIndex(2) == 1 && slots[1] == "y";
    assert RemovedAsWritten(u, 0, 2) == 3;
    assert u[..0] + "y" + u[3..] == "y";
    ScanFacts(t, 0, slots);
    assert ScanFrom(t, 0, slots) == Replaced(0, u, 3);
    SubstituteAtEnd(u, slots);
  }

  /** `<0>` names no slot: the unsigned index wraps past the ninth. */
  lemma ZeroNamesNoSlot(slots: Slots)
    ensures Placeholder("<0>", 0, slots).None?
  {
    var t := "<0>";
    assert FindFrom(t, Close, 0) == Some(2);
    assert t[1..2] == "0";
    assert Decimal.Value("0") == 0 by {
      assert "0"[..0] == [];
    }
  }

  /** The inserted value holds no `<`, so scanning the replaced text from
      the `<` found resumes where the intended scan does. */
  lemma ResumeAfterValue(t: string, pos: nat, slots: Slots)
    requires pos <= |t| && ScanFrom(t, pos, slots).Replaced?
    requires forall k :: 0 <= k < SlotCount ==> Open !in slots[k]
    ensures var s := ScanFrom(t, pos, slots);
      ScanFrom(s.next, s.at, slots) == ScanFrom(s.next, s.resume, slots)
  {
    var s := ScanFrom(t, pos, slots);
    ScanFacts(t, pos, slots);
    var rep := Placeholder(t, s.at, slots).value;
    assert Open !in rep.value;
    forall j | s.at <= j < s.resume
      ensures s.next[j] != Open
    {
      assert s.next[j] == rep.value[j - s.at];
    }
    ScanSkip(s.next, s.at, s.resume, slots);
  }

  /** Positions from which the scan finds the same thing are
      interchangeable. */
  lemma SameScan(t: string, a: nat, b: nat, slots: Slots)
    requires a <= |t| && b <= |t|
    requires ScanFrom(t, a, slots) == ScanFrom(t, b, slots)
    ensures SubstituteFrom(t, a, slots) == SubstituteFrom(t, b, slots)
    ensures AllValidFrom(t, a, slots) == AllValidFrom(t, b, slots)
    ensures Remaining(t, a, slots) == Remaining(t, b, slots)
  {
    SameScanA(t, a, b, slots);
    SameScanB(t, a, b, slots);
    SameScanC(t, a, b, slots);
  }

  /** What the substitution does after a scan: nothing is left, or it goes
      on from where the scan says. */
  function Continue(t: string, s: Scan, slots: Slots): string
    requires s.Replaced? ==> s.resume <= |s.next|
    requires s.Invalid? ==> s.at < |t|
  {
    match s
    case Done => t
    case Replaced(_, next, resume) => SubstituteFrom(next, resume, slots)
    case Invalid(at) => SubstituteFrom(t, at + 1, slots)
  }

  lemma SubstituteUnfold(t: string, pos: nat, slots: Slots)
    requires pos <= |t|
    ensures SubstituteFrom(t, pos, slots) == Continue(t, ScanFrom(t, pos, slots), slots)
  {
  }

  lemma SameScanA(t: string, a: nat, b: nat, slots: Slots)
    requires a <= |t| && b <= |t|
    requires ScanFrom(t, a, slots) == ScanFrom(t, b, slots)
    ensures SubstituteFrom(t, a, slots) == SubstituteFrom(t, b, slots)
  {
    SubstituteUnfold(t, a, slots);
    SubstituteUnfold(t, b, slots);
  }
  /** Whether every `<` met after a scan is valid. */
  predicate ValidAfter(t: string, s: Scan, slots: Slots)
    requires s.Replaced? ==> s.resume <= |s.next|
  {
    match s
    case Done => true
    case Replaced(_, next, resume) => AllValidFrom(next, resume, slots)
    case Invalid(_) => false
  }

  lemma AllValidUnfold(t: string, pos: nat, slots: Slots)
    requires pos <= |t|
    ensures AllValidFrom(t, pos, slots) == ValidAfter(t, ScanFrom(t, pos, slots), slots)
  {
  }

  lemma SameScanB(t: string, a: nat, b: nat, slots: Slots)
    requires a <= |t| && b <= |t|
    requires ScanFrom(t, a, slots) == ScanFrom(t, b, slots)
    ensures AllValidFrom(t, a, slots) == AllValidFrom(t, b, slots)
  {
    AllValidUnfold(t, a, slots);
    AllValidUnfold(t, b, slots);
  }

  /** How many placeholders are replaced after a scan. */
  ghost function RemainingAfter(t: string, s: Scan, slots: Slots): nat
    requires s.Replaced? ==> s.resume <= |s.next|
    requires s.Invalid? ==> s.at < |t|
  {
    match s
    case Done => 0
    case Replaced(_, next, resume) => 1 + Remaining(next, resume, slots)
    case Invalid(at) => Remaining(t, at + 1, slots)
  }

  lemma RemainingUnfold(t: string, pos: nat, slots: Slots)
    requires pos <= |t|
    ensures Remaining(t, pos, slots) == RemainingAfter(t, ScanFrom(t, pos, slots), slots)
  {
  }

  lemma SameScanC(t: string, a: nat, b: nat, slots: Slots)
    requires a <= |t| && b <= |t|
    requires ScanFrom(t, a, slots) == ScanFrom(t, b, slots)
    ensures Remaining(t, a, slots) == Remaining(t, b, slots)
  {
    RemainingUnfold(t, a, slots);
    RemainingUnfold(t, b, slots);
  }

  /** A cursor the loop can go on from as the intended scan does: every `<`
      ahead is valid, and the text does not start with an unclosed
      placeholder the cursor still has to meet. */
  predicate Settled(c: Cursor, slots: Slots) {
    && c.pos <= |c.text|
    && AllValidFrom(c.text, c.pos, slots)
    && !(c.pos == 0 && UnclosedHead(c.text))
  }

  /** From a settled cursor one iteration keeps what remains to be sent,
      stays settled and replaces one placeholder; when it exits, the text
      is the substitution. */
  lemma SettledStep(c: Cursor, slots: Slots)
    requires Settled(c, slots)
    requires forall k :: 0 <= k < SlotCount ==> Open !in slots[k]
    ensures Castable(c)
    ensures Pass(c, slots).None? ==> SubstituteFrom(c.text, c.pos, slots) == c.text
    ensures Pass(c, slots).Some? ==>
      var c' := Pass(c, slots).value;
      && Settled(c', slots)
      && SubstituteFrom(c'.text, c'.pos, slots) == SubstituteFrom(c.text, c.pos, slots)
      && Remaining(c'.text, c'.pos, slots) < Remaining(c.text, c.pos, slots)
  {
    var s := ScanFrom(c.text, c.pos, slots);
    ScanFacts(c.text, c.pos, slots);
    if s.Replaced? {
      PassFollowsScan(c, slots);
      var rep := Placeholder(c.text, s.at, slots).value;
      assert Open !in rep.value;
      assert s.at == 0 ==> s.next[0] == rep.value[0];
      ResumeAfterValue(c.text, c.pos, slots);
      SameScan(s.next, s.at, s.resume, slots);
    }
  }

  /** A template that is a valid placeholder without `>`: the first
      iteration inserts the value in front of it, and from there the loop
      goes on to replace the placeholder by the value once more. */
  lemma UnclosedHeadPass(t: string, slots: Slots)
    requires WellFormed(t, slots) && UnclosedHead(t)
    ensures Castable(Cursor(t, 0)) && Pass(Cursor(t, 0), slots).Some?
    ensures var c := Pass(Cursor(t, 0), slots).value;
      && Settled(c, slots)
      && SubstituteFrom(c.text, c.pos, slots) == Substitute(t, slots) + Substitute(t, slots)
      && Remaining(c.text, c.pos, slots) <= Remaining(t, 0, slots)
  {
    var v := UnclosedHeadFirst(t, slots);
    var u := v + t;
    assert Open !in v;
    assert u[0] != Open by {
      assert u[0] == v[0];
    }
    DoubledScan(v, t, slots);
    assert Settled(Cursor(u, 0), slots);
  }

  /** Scanning the text with the value in front of the unclosed placeholder
      replaces that placeholder once and then finds no `<`. */
  lemma DoubledScan(v: string, t: string, slots: Slots)
    requires Open !in v && v != [] && UnclosedHead(t) && Placeholder(t, 0, slots) == Some(Replacement(|t|, v))
    ensures var u := v + t;
      && SubstituteFrom(u, 0, slots) == v + v
      && AllValidFrom(u, 0, slots)
      && Remaining(u, 0, slots) == 1
  {
    var u := v + t;
    ShiftedUnclosed(v, t, slots);
    var vv := u[..|v|] + v;
    assert vv == v + v;
    var s := ScanFrom(u, 0, slots);
    assert s == Replaced(|v|, vv, |vv|);
    SubstituteAtEnd(vv, slots);
    ScanFacts(vv, |vv|, slots);
    assert SubstituteFrom(u, 0, slots) == SubstituteFrom(vv, |vv|, slots);
    assert AllValidFrom(u, 0, slots) == AllValidFrom(vv, |vv|, slots);
    assert Remaining(u, 0, slots) == 1 + Remaining(vv, |vv|, slots);
  }

  /** The first iteration on a valid placeholder without `>` inserts its
      value `v` in front of it; the substitution replaces it by `v`. */
  lemma UnclosedHeadFirst(t: string, slots: Slots) returns (v: string)
    requires WellFormed(t, slots) && UnclosedHead(t)
    ensures Placeholder(t, 0, slots).Some? && v == Placeholder(t, 0, slots).value.value
    ensures Castable(Cursor(t, 0)) && Pass(Cursor(t, 0), slots) == Some(Cursor(v + t, 0))
    ensures Substitute(t, slots) == v && Remaining(t, 0, slots) == 1
  {
    var s := ScanFrom(t, 0, slots);
    ScanFacts(t, 0, slots);
    assert FindFrom(t, Open, 0) == Some(0);
    assert s.Replaced? && s.at == 0;
    v := Placeholder(t, 0, slots).value.value;
    assert s.next == v && s.resume == |v|;
    assert s.next[..s.resume] == v;
    PassFollowsScan(Cursor(t, 0), slots);
    SubstituteAtEnd(v, slots);
    ScanFacts(v, |v|, slots);
  }

  /** Behind a prefix, an unclosed placeholder still reaches to the end of
      the text and reads the same number. */
  lemma CastAfterPrefix(v: string, t: string)
    requires UnclosedHead(t)
    ensures var u := v + t; u[|v|] == Open
    ensures var u := v + t; Cast(u, |v|) == if Cast(t, 0).Some? then Some(Body(|u|, Cast(t, 0).value.number)) else None
  {
    var u := v + t;
    assert u[|v|] == t[0];
    forall j | |v| < j < |u|
      ensures u[j] != Close
    {
      assert u[j] == t[j - |v|];
    }
    assert FindFrom(u, Close, |v|) == None;
    assert u[|v| + 1..|u|] == t[1..|t|];
    CastReads(u, |v|);
    CastReads(t, 0);
  }

  /** After a `<`-free prefix, a valid unclosed placeholder is still found
      and replaced through the end of the text. */
  lemma ShiftedUnclosed(v: string, t: string, slots: Slots)
    requires Open !in v && UnclosedHead(t) && Placeholder(t, 0, slots).Some?
    ensures var u := v + t;
      ScanFrom(u, 0, slots) == Replaced(|v|, u[..|v|] + Placeholder(t, 0, slots).value.value,
                                        |v| + |Placeholder(t, 0, slots).value.value|)
  {
    var u := v + t;
    forall j | 0 <= j < |v|
      ensures u[j] != Open
    {
      assert u[j] == v[j];
    }
    CastAfterPrefix(v, t);
    FindFromSkip(u, Open, 0, |v|);
    assert FindFrom(u, Open, |v|) == Some(|v|);
    var rep := Placeholder(t, 0, slots).value;
    assert Placeholder(u, |v|, slots) == Some(Replacement(|u|, rep.value));
    assert u[|u|..] == [];
  }

  /** `<1` with no `>`: a valid placeholder reaching to the end. */
  lemma OneUnclosed(t: string, slots: Slots)
    requires t == "<1" && slots[0] != []
    ensures UnclosedHead(t) && Placeholder(t, 0, slots) == Some(Replacement(2, slots[0]))
  {
    assert FindFrom(t, Close, 0) == None;
    ReadUnsignedFromNat(1);
    assert Decimal.FromNat(1) == "1" == t[1..2];
    CastReads(t, 0);
  }

  /** A template ending in a placeholder without `>`, after some text, has
      it replaced up to the end of the text, by the loop as by the intended
      substitution. */
  lemma UnclosedTailReplaced(v: string, t: string, slots: Slots)
    requires v != [] && Open !in v && t == v + "<1" && slots[0] != []
    ensures Castable(Cursor(t, 0))
    ensures Pass(Cursor(t, 0), slots) == Some(Cursor(v + slots[0], |v|))
    ensures Substitute(t, slots) == v + slots[0]
  {
    OneUnclosed("<1", slots);
    ShiftedUnclosed(v, "<1", slots);
    var next := t[..|v|] + slots[0];
    assert next == v + slots[0];
    PassFollowsScan(Cursor(t, 0), slots);
    SubstituteAtEnd(next, slots);
  }

  /** As written, a template made of a valid placeholder without `>` is sent
      with its value twice: the first iteration removes nothing and inserts
      the value in front, the second replaces the placeholder, now further
      in, through the end. */
  lemma UnclosedHeadDoubles(t: string, slots: Slots)
    requires WellFormed(t, slots) && UnclosedHead(t)
    ensures var v := Substitute(t, slots);
      && v != [] && Castable(Cursor(t, 0)) && Castable(Cursor(v + t, 0)) && Castable(Cursor(v + v, |v|))
      && Pass(Cursor(t, 0), slots) == Some(Cursor(v + t, 0))
      && Pass(Cursor(v + t, 0), slots) == Some(Cursor(v + v, |v|))
      && Pass(Cursor(v + v, |v|), slots) == None
  {
    var v := UnclosedHeadFirst(t, slots);
    var u := v + t;
    assert Open !in v;
    ShiftedUnclosed(v, t, slots);
    assert u[..|v|] + v == v + v;
    assert u[0] != Open by {
      assert u[0] == v[0];
    }
    PassFollowsScan(Cursor(u, 0), slots);
    forall j | |v| <= j < |v + v|
      ensures (v + v)[j] != Open
    {
      assert (v + v)[j] == v[j - |v|];
    }
    ScanFacts(v + v, |v|, slots);
  }

  /** The template `<1` with slot 1 holding `x`: the loop sends `xx`, the
      intended substitution `x`. */
  lemma UnclosedHeadExample(t: string, slots: Slots)
    requires t == "<1" && slots == NoValues[0 := "x"]
    ensures WellFormed(t, slots) && UnclosedHead(t)
    ensures Substitute(t, slots) == "x"
  {
    OneUnclosed(t, slots);
    ScanFacts(t, 0, slots);
    assert FindFrom(t, Open, 0) == Some(0);
    assert ScanFrom(t, 0, slots) == Replaced(0, "x", 1);
    SubstituteAtEnd("x", slots);
    forall k | 0 <= k < SlotCount
      ensures Open !in slots[k]
    {
    }
  }

  /** With every slot empty nothing is replaced: each `<` is invalid, and
      the intended substitution keeps it and goes on. */
  lemma {:induction false} NoValuesFrom(t: string, pos: nat)
    requires pos <= |t|
    ensures SubstituteFrom(t, pos, NoValues) == t
    decreases |t| - pos
  {
    ScanFacts(t, pos, NoValues);
    var s := ScanFrom(t, pos, NoValues);
    if s.Invalid? {
      NoValuesFrom(t, s.at + 1);
    }
  }

  /** A template whose placeholders all use still-empty slots is sent as
      it is, instead of stalling the loop. */
  lemma EmptySlotsChangeNothing(t: string)
    ensures Substitute(t, NoValues) == t
  {
    NoValuesFrom(t, 0);
  }

  /** The source's loop, iterating `Pass` until no `<` is left. For a
      well-formed template it ends with the intended substitution, except
      that a template made of one placeholder without `>` gets its value
      twice. */
  method SubstituteInPlace(template: string, slots: Slots) returns (command: string)
    requires WellFormed(template, slots)
    ensures !UnclosedHead(template) ==> command == Substitute(template, slots)
    ensures UnclosedHead(template) ==> command == Substitute(template, slots) + Substitute(template, slots)
  {
    var c := Cursor(template, 0);
    ghost var first := UnclosedHead(template);
    ghost var target := if first then Substitute(template, slots) + Substitute(template, slots)
                        else Substitute(template, slots);
    while true
      invariant first ==> c == Cursor(template, 0)
      invariant !first ==> Settled(c, slots) && SubstituteFrom(c.text, c.pos, slots) == target
      decreases (if first then 1 else 0) + Remaining(c.text, c.pos, slots)
    {
      if first {
        UnclosedHeadPass(template, slots);
      } else {
        SettledStep(c, slots);
      }
      var next := Pass(c, slots);
      if next.None? {
        return c.text;
      }
      c := next.value;
      first := false;
    }
  }

  // ---------------------------------------------------------------------------
  // Templates built from pieces

  /** A template as literal text and slot references. */
  datatype Piece = Lit(text: string) | Ref(slot: nat)

  /** Literals hold no `<` and every reference names a filled slot. */
  predicate Fillable(pieces: seq<Piece>, slots: Slots) {
    forall i :: 0 <= i < |pieces| ==> FillablePiece(pieces[i], slots)
  }

  predicate FillablePiece(piece: Piece, slots: Slots) {
    match piece
    case Lit(text) => Open !in text
    case Ref(n) => 1 <= n <= SlotCount && slots[n - 1] != []
  }

  function RenderPiece(piece: Piece): string {
    match piece
    case Lit(text) => text
    case Ref(n) => [Open] + Decimal.FromNat(n) + [Close]
  }

  /** The template text: references written `<N>`. */
  function Render(pieces: seq<Piece>): string {
    if pieces == [] then [] else RenderPiece(pieces[0]) + Render(pieces[1..])
  }

  /** The intended command: references replaced by their slots' values. */
  function Fill(pieces: seq<Piece>, slots: Slots): string
    requires Fillable(pieces, slots)
  {
    if pieces == [] then [] else FillPiece(pieces[0], slots) + Fill(pieces[1..], slots)
  }

  function FillPiece(piece: Piece, slots: Slots): string
    requires FillablePiece(piece, slots)
  {
    match piece
    case Lit(text) => text
    case Ref(n) => slots[n - 1]
  }

  /** Scanning a reference: the `>` after `<N>` closes it and its number is N. */
  lemma RefCast(t: string, q: nat, n: nat)
    requires 1 <= n <= SlotCount
    requires q + |RenderPiece(Ref(n))| <= |t| && t[q..q + |RenderPiece(Ref(n))|] == RenderPiece(Ref(n))
    ensures t[q] == Open
    ensures Cast(t, q) == Some(Body(q + 1 + |Decimal.FromNat(n)|, n))
  {
    var d := Decimal.FromNat(n);
    var e := q + 1 + |d|;
    var r := RenderPiece(Ref(n));
    assert r == [Open] + d + [Close];
    forall j | 0 <= j < |d|
      ensures t[q + 1 + j] == d[j]
    {
      assert t[q + 1 + j] == t[q..q + |r|][1 + j] == r[1 + j];
    }
    assert t[q + 1..e] == d;
    assert t[q] == r[0];
    assert t[e] == r[1 + |d|];
    forall j | q < j < e
      ensures t[j] != Close
    {
      assert t[j] == d[j - q - 1];
      assert Decimal.IsDigit(d[j - q - 1]);
    }
    ReadUnsignedFromNat(n);
    CastOfBody(t, q, e, n);
  }

  /** A `<`, a body the cast reads as `n`, and the first `>` after it. */
  lemma CastOfBody(t: string, q: nat, e: nat, n: nat)
    requires q < e < |t| && t[q] == Open && t[e] == Close
    requires forall j :: q < j < e ==> t[j] != Close
    requires ReadUnsigned(t[q + 1..e]) == Some(n)
    ensures Cast(t, q) == Some(Body(e, n))
  {
    FindFromSkip(t, Close, q, e);
    assert CloseOf(t, q) == e;
    CastReads(t, q);
  }

  /** The substitution takes one step per scan. */
  lemma SubstituteStep(t: string, pos: nat, slots: Slots)
    requires pos <= |t|
    ensures var s := ScanFrom(t, pos, slots);
      && (s.Done? ==> SubstituteFrom(t, pos, slots) == t && AllValidFrom(t, pos, slots))
      && (s.Replaced? ==>
            && SubstituteFrom(t, pos, slots) == SubstituteFrom(s.next, s.resume, slots)
            && AllValidFrom(t, pos, slots) == AllValidFrom(s.next, s.resume, slots))
  {
  }

  /** A reference to a filled slot is replaced by the slot's value, and
      scanning resumes after it. */
  lemma RefScan(t: string, t': string, prefix: string, n: nat, rest: string, slots: Slots)
    requires 1 <= n <= SlotCount && slots[n - 1] != []
    requires t == prefix + RenderPiece(Ref(n)) + rest && t' == prefix + slots[n - 1] + rest
    ensures ScanFrom(t, |prefix|, slots) == Replaced(|prefix|, t', |prefix| + |slots[n - 1]|)
  {
    var head := RenderPiece(Ref(n));
    var q := |prefix|;
    var v := slots[n - 1];
    assert t[q..q + |head|] == head;
    assert t[q] == head[0];
    assert FindFrom(t, Open, q) == Some(q);
    RefCast(t, q, n);
    var close := q + |head| - 1;
    assert Placeholder(t, q, slots) == Some(Replacement(close, v));
    assert t[..q] == prefix;
    assert t[close + 1..] == rest;
  }

  /** One piece of a rendered template: the substitution turns it into its
      value and carries on after the value. */
  lemma PieceStep(t: string, q: nat, t': string, q': nat, prefix: string, piece: Piece, rest: string, slots: Slots)
    requires FillablePiece(piece, slots)
    requires t == prefix + RenderPiece(piece) + rest && q == |prefix|
    requires t' == prefix + FillPiece(piece, slots) + rest && q' == q + |FillPiece(piece, slots)|
    ensures q <= |t| && q' <= |t'|
    ensures SubstituteFrom(t, q, slots) == SubstituteFrom(t', q', slots)
    ensures AllValidFrom(t, q, slots) == AllValidFrom(t', q', slots)
  {
    if piece.Lit? {
      LitStep(t, q, t', q', prefix, piece, rest, slots);
    } else {
      RefStep(t, q, t', q', prefix, piece, rest, slots);
    }
  }

  /** A literal without `<` is passed over. */
  lemma LitStep(t: string, q: nat, t': string, q': nat, prefix: string, piece: Piece, rest: string, slots: Slots)
    requires piece.Lit? && FillablePiece(piece, slots)
    requires t == prefix + RenderPiece(piece) + rest && q == |prefix|
    requires t' == prefix + FillPiece(piece, slots) + rest && q' == q + |FillPiece(piece, slots)|
    ensures q <= |t| && q' <= |t'|
    ensures SubstituteFrom(t, q, slots) == SubstituteFrom(t', q', slots)
    ensures AllValidFrom(t, q, slots) == AllValidFrom(t', q', slots)
  {
    var text := piece.text;
    assert RenderPiece(piece) == text;
    assert FillPiece(piece, slots) == text;
    assert t' == t && q' == q + |text|;
    forall j | q <= j < q'
      ensures t[j] != Open
    {
      assert t[j] == text[j - q];
    }
    ScanSkip(t, q, q', slots);
    SameScanA(t, q, q', slots);
    SameScanB(t, q, q', slots);
  }

  lemma RefStep(t: string, q: nat, t': string, q': nat, prefix: string, piece: Piece, rest: string, slots: Slots)
    requires piece.Ref? && FillablePiece(piece, slots)
    requires t == prefix + RenderPiece(piece) + rest && q == |prefix|
    requires t' == prefix + FillPiece(piece, slots) + rest && q' == q + |FillPiece(piece, slots)|
    ensures q <= |t| && q' <= |t'|
    ensures SubstituteFrom(t, q, slots) == SubstituteFrom(t', q', slots)
    ensures AllValidFrom(t, q, slots) == AllValidFrom(t', q', slots)
  {
    var n := piece.slot;
    assert FillPiece(piece, slots) == slots[n - 1];
    RefScan(t, t', prefix, n, rest, slots);
    var scan := ScanFrom(t, q, slots);
    assert scan.Replaced? && scan.next == t' && scan.resume == q';
    SubstituteStep(t, q, slots);
  }

  /** Substituting a rendered template, after any prefix, fills it in, and
      every `<` met is valid. */
  lemma {:induction false} SubstituteRenderFrom(t: string, prefix: string, pieces: seq<Piece>, slots: Slots)
    requires Fillable(pieces, slots) && t == prefix + Render(pieces)
    ensures |prefix| <= |t|
    ensures SubstituteFrom(t, |prefix|, slots) == prefix + Fill(pieces, slots)
    ensures AllValidFrom(t, |prefix|, slots)
    decreases |pieces|
  {
    if pieces == [] {
      assert t == prefix;
      SubstituteAtEnd(t, slots);
      assert Fill(pieces, slots) == [];
    } else {
      var v := FillPiece(pieces[0], slots);
      var rest := Render(pieces[1..]);
      FillableTail(pieces, slots);
      var t' := (prefix + v) + rest;
      assert t == prefix + RenderPiece(pieces[0]) + rest by {
        assert Render(pieces) == RenderPiece(pieces[0]) + rest;
      }
      PieceStep(t, |prefix|, t', |prefix + v|, prefix, pieces[0], rest, slots);
      SubstituteRenderFrom(t', prefix + v, pieces[1..], slots);
      FillCons(prefix, pieces, slots);
    }
  }

  /** Nothing is left to substitute at the end of the text. */
  lemma SubstituteAtEnd(t: string, slots: Slots)
    ensures SubstituteFrom(t, |t|, slots) == t && AllValidFrom(t, |t|, slots)
  {
    ScanFacts(t, |t|, slots);
    SubstituteStep(t, |t|, slots);
  }

  lemma FillCons(prefix: string, pieces: seq<Piece>, slots: Slots)
    requires pieces != [] && Fillable(pieces, slots)
    ensures FillablePiece(pieces[0], slots) && Fillable(pieces[1..], slots)
    ensures prefix + Fill(pieces, slots) == (prefix + FillPiece(pieces[0], slots)) + Fill(pieces[1..], slots)
  {
    FillableTail(pieces, slots);
  }

  lemma FillableTail(pieces: seq<Piece>, slots: Slots)
    requires pieces != [] && Fillable(pieces, slots)
    ensures FillablePiece(pieces[0], slots) && Fillable(pieces[1..], slots)
  {
    assert FillablePiece(pieces[0], slots);
    forall i | 0 <= i < |pieces[1..]|
      ensures FillablePiece(pieces[1..][i], slots)
    {
      assert pieces[1..][i] == pieces[i + 1];
    }
  }

  /** A rendered template is filled in by the substitution. */
  lemma SubstituteRender(pieces: seq<Piece>, slots: Slots)
    requires Fillable(pieces, slots)
    ensures Substitute(Render(pieces), slots) == Fill(pieces, slots)
    ensures AllValidFrom(Render(pieces), 0, slots)
  {
    SubstituteRenderFrom(Render(pieces), [], pieces, slots);
    assert [] + Fill(pieces, slots) == Fill(pieces, slots);
  }
}
