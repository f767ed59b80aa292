/** Classification of one line read from the server (src/CNetwork.cpp:168-283):
    a line in which the pattern `error id=([0-9]+) msg=([^ \n]+)` matches
    anywhere is a status line; otherwise a line starting with `notify` is a
    notification; anything else is a data line for the pending result. */
module StatusLine {
  import opened Text
  import Decimal

  /** The two captures of the status pattern: the id digits and the message
      token, both as they appear on the wire. */
  datatype Status = Status(id: string, msg: string) {
    /** Only the id written exactly `0` means success (the source compares
        the capture with the string "0"). */
    predicate IsSuccess() {
      id == "0"
    }
  }

  datatype Kind = StatusKind(status: Status) | NotifyKind | DataKind

  const ErrorTag: string := "error id="
  const MsgTag: string := " msg="
  const NotifyPrefix: string := "notify"

  /** Characters of the message token `[^ \n]`. */
  predicate IsMsgChar(c: char) {
    c != ' ' && c != '\n'
  }

  /** The pattern matches at `p` with an id of `d` digits. */
  predicate MatchesWith(line: string, p: nat, d: nat) {
    && 0 < d
    && HasAt(line, p, ErrorTag)
    && p + |ErrorTag| + d <= |line|
    && Decimal.AllDigits(line[p + |ErrorTag|..p + |ErrorTag| + d])
    && HasAt(line, p + |ErrorTag| + d, MsgTag)
    && p + |ErrorTag| + d + |MsgTag| < |line|
    && IsMsgChar(line[p + |ErrorTag| + d + |MsgTag|])
  }

  /** The pattern matches at `p`. */
  predicate MatchesAt(line: string, p: nat) {
    exists d: nat | d <= |line| :: MatchesWith(line, p, d)
  }

  /** The pattern matches somewhere in `line` (`regex_search` succeeds). */
  predicate ContainsStatus(line: string) {
    exists p: nat | p <= |line| :: MatchesAt(line, p)
  }

  /** `st` is what the two groups capture for a match at `p`: the id is the
      digit run, the message the longest `[^ \n]` run. */
  predicate CapturesAt(line: string, p: nat, st: Status) {
    var msgStart := p + |ErrorTag| + |st.id| + |MsgTag|;
    && 0 < |st.id| && Decimal.AllDigits(st.id)
    && 0 < |st.msg| && (forall j :: 0 <= j < |st.msg| ==> IsMsgChar(st.msg[j]))
    && HasAt(line, p, ErrorTag)
    && HasAt(line, p + |ErrorTag|, st.id)
    && HasAt(line, p + |ErrorTag| + |st.id|, MsgTag)
    && HasAt(line, msgStart, st.msg)
    && (msgStart + |st.msg| == |line| || !IsMsgChar(line[msgStart + |st.msg|]))
  }

  /** Length of the digit run starting at `from`. */
  function DigitRun(s: string, from: nat): (n: nat)
    requires from <= |s|
    ensures from + n <= |s|
    ensures forall j :: from <= j < from + n ==> Decimal.IsDigit(s[j])
    ensures from + n == |s| || !Decimal.IsDigit(s[from + n])
    decreases |s| - from
  {
    if from == |s| || !Decimal.IsDigit(s[from]) then 0 else 1 + DigitRun(s, from + 1)
  }

  /** Length of the `[^ \n]` run starting at `from`. */
  function TokenRun(s: string, from: nat): (n: nat)
    requires from <= |s|
    ensures from + n <= |s|
    ensures forall j :: from <= j < from + n ==> IsMsgChar(s[j])
    ensures from + n == |s| || !IsMsgChar(s[from + n])
    decreases |s| - from
  {
    if from == |s| || !IsMsgChar(s[from]) then 0 else 1 + TokenRun(s, from + 1)
  }

  /** `r` is what the pattern yields at `p`: captures exactly when it
      matches there, and then the captures of that match. */
  predicate Yields(line: string, p: nat, r: Option<Status>) {
    && (r.Some? <==> MatchesAt(line, p))
    && (r.Some? ==> CapturesAt(line, p, r.value))
  }

  /** The captures of a match at `p`, if the pattern matches there
      (`StatusAtYields` states what they are). */
  function StatusAt(line: string, p: nat): Option<Status> {
    if !HasAt(line, p, ErrorTag) then None
    else
      var idStart := p + |ErrorTag|;
      var d := DigitRun(line, idStart);
      if d == 0 || !HasAt(line, idStart + d, MsgTag) then None
      else
        var msgStart := idStart + d + |MsgTag|;
        var m := TokenRun(line, msgStart);
        if m == 0 then None
        else Some(Status(line[idStart..idStart + d], line[msgStart..msgStart + m]))
  }

  /** `StatusAt` captures exactly when the pattern matches at `p`, and then
      what the match captures. */
  lemma StatusAtYields(line: string, p: nat)
    ensures Yields(line, p, StatusAt(line, p))
  {
    if StatusAt(line, p).Some? {
      StatusAtSome(line, p);
    } else {
      StatusAtNone(line, p);
    }
  }

  lemma StatusAtSome(line: string, p: nat)
    requires StatusAt(line, p).Some?
    ensures Yields(line, p, StatusAt(line, p))
  {
    var a := p + |ErrorTag|;
    var d := DigitRun(line, a);
    var c := a + d + |MsgTag|;
    var m := TokenRun(line, c);
    assert StatusAt(line, p) == Some(Status(line[a..a + d], line[c..c + m]));
    MatchCaptures(line, p, d, m);
  }

  lemma StatusAtNone(line: string, p: nat)
    requires StatusAt(line, p).None?
    ensures Yields(line, p, None)
  {
    if !HasAt(line, p, ErrorTag) {
      NoTagNoMatch(line, p);
    } else {
      NotMatchesAt(line, p);
    }
  }


  /** Without `error id=` at `p` the pattern does not match there. */
  lemma NoTagNoMatch(line: string, p: nat)
    requires !HasAt(line, p, ErrorTag)
    ensures Yields(line, p, None)
  {
  }

  /** The runs computed at `p` are the captures of a match there. */
  lemma MatchCaptures(line: string, p: nat, d: nat, m: nat)
    requires HasAt(line, p, ErrorTag)
    requires d == DigitRun(line, p + |ErrorTag|) && 0 < d
    requires HasAt(line, p + |ErrorTag| + d, MsgTag)
    requires m == TokenRun(line, p + |ErrorTag| + d + |MsgTag|) && 0 < m
    ensures Yields(line, p, Some(Status(line[p + |ErrorTag|..p + |ErrorTag| + d],
      line[p + |ErrorTag| + d + |MsgTag|..p + |ErrorTag| + d + |MsgTag| + m])))
  {
    RunsMatch(line, p, d, m);
    RunsCapture(line, p, d, m);
  }

  /** The runs at `p` make the pattern match there with `d` digits. */
  lemma RunsMatch(line: string, p: nat, d: nat, m: nat)
    requires HasAt(line, p, ErrorTag)
    requires d == DigitRun(line, p + |ErrorTag|) && 0 < d
    requires HasAt(line, p + |ErrorTag| + d, MsgTag)
    requires m == TokenRun(line, p + |ErrorTag| + d + |MsgTag|) && 0 < m
    ensures MatchesWith(line, p, d) && MatchesAt(line, p)
  {
    var a := p + |ErrorTag|;
    var id := line[a..a + d];
    forall j | 0 <= j < d ensures Decimal.IsDigit(id[j]) {
      assert id[j] == line[a + j];
    }
    assert MatchesWith(line, p, d);
  }

  /** The runs at `p` are what a match there captures. */
  lemma RunsCapture(line: string, p: nat, d: nat, m: nat)
    requires HasAt(line, p, ErrorTag)
    requires d == DigitRun(line, p + |ErrorTag|) && 0 < d
    requires HasAt(line, p + |ErrorTag| + d, MsgTag)
    requires m == TokenRun(line, p + |ErrorTag| + d + |MsgTag|) && 0 < m
    ensures CapturesAt(line, p, Status(line[p + |ErrorTag|..p + |ErrorTag| + d],
      line[p + |ErrorTag| + d + |MsgTag|..p + |ErrorTag| + d + |MsgTag| + m]))
  {
    var a := p + |ErrorTag|;
    var c := a + d + |MsgTag|;
    var id := line[a..a + d];
    var msg := line[c..c + m];
    forall j | 0 <= j < d ensures Decimal.IsDigit(id[j]) {
      assert id[j] == line[a + j];
    }
    forall j | 0 <= j < m ensures IsMsgChar(msg[j]) {
      assert msg[j] == line[c + j];
    }
  }



  lemma MatchIsRun(line: string, p: nat, d: nat)
    requires MatchesWith(line, p, d)
    ensures d == DigitRun(line, p + |ErrorTag|)
    ensures TokenRun(line, p + |ErrorTag| + d + |MsgTag|) > 0
  {
    var idStart := p + |ErrorTag|;
    var digits := line[idStart..idStart + d];
    forall j | idStart <= j < idStart + d
      ensures Decimal.IsDigit(line[j])
    {
      assert line[j] == digits[j - idStart];
    }
    assert line[idStart + d] == line[idStart + d..idStart + d + |MsgTag|][0];
    DigitRunIs(line, idStart, d);
  }


  /** When the digit run at `p` is empty, is not followed by ` msg=`, or the
      message token is empty, no digit count at all makes the pattern match. */
  lemma NotMatchesAt(line: string, p: nat)
    requires HasAt(line, p, ErrorTag)
    requires var d := DigitRun(line, p + |ErrorTag|);
      d == 0 || !HasAt(line, p + |ErrorTag| + d, MsgTag)
      || TokenRun(line, p + |ErrorTag| + d + |MsgTag|) == 0
    ensures Yields(line, p, None)
  {
    if MatchesAt(line, p) {
      var d: nat :| d <= |line| && MatchesWith(line, p, d);
      MatchIsRun(line, p, d);
    }
  }

  /** `p` is the leftmost position at or after `from` where the pattern
      matches, and `st` is what it captures there. */
  predicate LeftmostAt(line: string, from: nat, p: nat, st: Status) {
    && from <= p <= |line|
    && MatchesAt(line, p) && CapturesAt(line, p, st)
    && forall q :: from <= q < p ==> !MatchesAt(line, q)
  }

  /** A leftmost match from `next` is also the leftmost one from the
      position before it, when the pattern does not match there. */
  lemma LeftmostBack(line: string, from: nat, next: nat, st: Status)
    requires next == from + 1 && !MatchesAt(line, from)
    requires exists p: nat :: LeftmostAt(line, next, p, st)
    ensures exists p: nat :: LeftmostAt(line, from, p, st)
  {
    var p: nat :| LeftmostAt(line, next, p, st);
    assert LeftmostAt(line, from, p, st);
  }

  /** The leftmost match at or after `from`. */
  function SearchFrom(line: string, from: nat): (r: Option<Status>)
    ensures r.Some? ==> exists p: nat :: LeftmostAt(line, from, p, r.value)
    ensures r.None? ==> forall q :: from <= q <= |line| ==> !MatchesAt(line, q)
    decreases |line| + 1 - from
  {
    if from > |line| then None
    else
      StatusAtYields(line, from);
      match StatusAt(line, from)
      case Some(st) =>
        assert LeftmostAt(line, from, from, st);
        Some(st)
      case None =>
        var r := SearchFrom(line, from + 1);
        if r.Some? then LeftmostBack(line, from, from + 1, r.value); r else r
  }

  /** `regex_search` with the status pattern: the captures of the leftmost
      match, if the pattern matches anywhere. */
  function FindStatus(line: string): (r: Option<Status>)
    ensures r.Some? <==> ContainsStatus(line)
    ensures r.Some? ==> exists p: nat :: LeftmostAt(line, 0, p, r.value)
  {
    SearchFrom(line, 0)
  }

  /** Line classification with its fixed precedence: a status match anywhere
      wins, even over a `notify` prefix (src/CNetwork.cpp:172, 241, 279). */
  function Classify(line: string): (k: Kind)
    ensures k.StatusKind? <==> ContainsStatus(line)
    ensures k.NotifyKind? <==> !ContainsStatus(line) && StartsWith(line, NotifyPrefix)
    ensures k.DataKind? <==> !ContainsStatus(line) && !StartsWith(line, NotifyPrefix)
    ensures k.StatusKind? ==> exists p: nat | p <= |line| :: CapturesAt(line, p, k.status)
  {
    match FindStatus(line)
    case Some(st) => StatusKind(st)
    case None => if StartsWith(line, NotifyPrefix) then NotifyKind else DataKind
  }

  /** A line built around a well-formed status text is a status line,
      whatever precedes or follows it, a `notify` prefix included. */
  lemma StatusAnywhere(before: string, id: string, msg: string, after: string)
    requires 0 < |id| && Decimal.AllDigits(id)
    requires 0 < |msg| && IsMsgChar(msg[0])
    ensures Classify(before + ErrorTag + id + MsgTag + msg + after).StatusKind?
  {
    var line := before + ErrorTag + id + MsgTag + msg + after;
    var p := |before|;
    assert line[p..p + |ErrorTag|] == ErrorTag;
    assert line[p + |ErrorTag|..p + |ErrorTag| + |id|] == id;
    assert line[p + |ErrorTag| + |id|..p + |ErrorTag| + |id| + |MsgTag|] == MsgTag;
    assert line[p + |ErrorTag| + |id| + |MsgTag|] == msg[0];
    assert MatchesWith(line, p, |id|);
    assert MatchesAt(line, p);
  }

  /** Every status text holds an 'r', so a line without one is never a
      status line. */
  lemma NoStatusWithoutR(line: string)
    requires 'r' !in line
    ensures !ContainsStatus(line)
  {
    forall p: nat | p <= |line| ensures !HasAt(line, p, ErrorTag) {
      if p + |ErrorTag| <= |line| {
        assert line[p + 1] in line;
        assert line[p..p + |ErrorTag|][1] == line[p + 1];
      }
    }
  }

  lemma {:induction false} DigitRunIs(s: string, from: nat, n: nat)
    requires from + n <= |s|
    requires forall j :: from <= j < from + n ==> Decimal.IsDigit(s[j])
    requires from + n == |s| || !Decimal.IsDigit(s[from + n])
    ensures DigitRun(s, from) == n
    decreases n
  {
    if n > 0 {
      DigitRunIs(s, from + 1, n - 1);
    }
  }

  lemma {:induction false} TokenRunIs(s: string, from: nat, n: nat)
    requires from + n <= |s|
    requires forall j :: from <= j < from + n ==> IsMsgChar(s[j])
    requires from + n == |s| || !IsMsgChar(s[from + n])
    ensures TokenRun(s, from) == n
    decreases n
  {
    if n > 0 {
      TokenRunIs(s, from + 1, n - 1);
    }
  }

  /** A line that is exactly one status text is classified with exactly the
      id and message it was built from. */
  lemma ClassifyStatusText(line: string, id: string, msg: string)
    requires 0 < |id| && Decimal.AllDigits(id)
    requires 0 < |msg| && forall j :: 0 <= j < |msg| ==> IsMsgChar(msg[j])
    requires line == ErrorTag + id + MsgTag + msg
    ensures Classify(line) == StatusKind(Status(id, msg))
  {
    StatusTextParts(line, id, msg);
    IdRunOfStatusText(line, id, msg);
    MsgRunOfStatusText(line, id, msg);
    var c := |ErrorTag| + |id| + |MsgTag|;
    assert line[c..c + |msg|] == msg;
    assert StatusAt(line, 0) == Some(Status(id, msg));
  }

  /** Where the pieces of a status text sit in it. */
  lemma StatusTextParts(line: string, id: string, msg: string)
    requires line == ErrorTag + id + MsgTag + msg
    ensures HasAt(line, 0, ErrorTag)
    ensures line[|ErrorTag|..|ErrorTag| + |id|] == id
    ensures HasAt(line, |ErrorTag| + |id|, MsgTag)
    ensures line[|ErrorTag| + |id| + |MsgTag|..] == msg
    ensures |line| == |ErrorTag| + |id| + |MsgTag| + |msg|
  {
  }

  /** The digit run of a status text is its id. */
  lemma IdRunOfStatusText(line: string, id: string, msg: string)
    requires 0 < |id| && Decimal.AllDigits(id)
    requires line == ErrorTag + id + MsgTag + msg
    ensures DigitRun(line, |ErrorTag|) == |id|
  {
    var a := |ErrorTag|;
    var b := a + |id|;
    StatusTextParts(line, id, msg);
    forall j | a <= j < b
      ensures Decimal.IsDigit(line[j])
    {
      assert line[j] == line[a..b][j - a];
    }
    assert line[b] == line[b..b + |MsgTag|][0];
    DigitRunIs(line, a, |id|);
  }

  /** The token run of a status text is its message. */
  lemma MsgRunOfStatusText(line: string, id: string, msg: string)
    requires 0 < |msg| && forall j :: 0 <= j < |msg| ==> IsMsgChar(msg[j])
    requires line == ErrorTag + id + MsgTag + msg
    ensures TokenRun(line, |ErrorTag| + |id| + |MsgTag|) == |msg|
  {
    var c := |ErrorTag| + |id| + |MsgTag|;
    StatusTextParts(line, id, msg);
    forall j | c <= j < |line|
      ensures IsMsgChar(line[j])
    {
      assert line[j] == line[c..][j - c];
    }
    TokenRunIs(line, c, |msg|);
  }


  /** The success status of the protocol. */
  lemma ClassifySuccess(line: string)
    requires line == "error id=0 msg=ok"
    ensures Classify(line) == StatusKind(Status("0", "ok"))
    ensures Classify(line).status.IsSuccess()
  {
    assert line == ErrorTag + "0" + MsgTag + "ok";
    ClassifyStatusText(line, "0", "ok");
  }


  /** An id written with a leading zero is not the string "0", so it takes
      the error path. */
  lemma ClassifyZeroPadded(line: string)
    requires line == "error id=00 msg=ok"
    ensures Classify(line) == StatusKind(Status("00", "ok"))
    ensures !Classify(line).status.IsSuccess()
  {
    assert line == ErrorTag + "00" + MsgTag + "ok";
    ClassifyStatusText(line, "00", "ok");
  }


  /** Without a status text, the `notify` prefix decides. */
  lemma ClassifyByPrefix()
    ensures Classify("notifyclientmoved ctid=1 clid=2") == NotifyKind
    ensures Classify("clid=1 cid=2") == DataKind
  {
    NoStatusWithoutR("notifyclientmoved ctid=1 clid=2");
    NoStatusWithoutR("clid=1 cid=2");
    assert StartsWith("notifyclientmoved ctid=1 clid=2", NotifyPrefix);
    assert "clid=1 cid=2"[0] != NotifyPrefix[0];
  }
}
