/** What the legacy poller does with the reply to one command of a command
    list (src/thread.cpp:80-112): it narrows the reply to the '|'-segment
    holding the command's `MFind` text, searches that for `ValName=` followed
    by a value, and stores the value in the first empty one of the nine
    slots that later `<N>` placeholders read. */
module Extract {
  import opened Text
  import Rows
  import Template

  // ---------------------------------------------------------------------------
  // MFind: the '|'-segment around a match

  /** Bounds of a segment of the reply. */
  datatype Span = Span(first: nat, last: nat)

  /** The stretch around position `p`: it ends at the first '|' at or after
      `p` (or the end of the text) and starts at the last '|' before that
      (or at 0). */
  function SpanAround(recv: string, p: nat): (s: Span)
    requires p <= |recv|
    ensures s.first <= p <= s.last <= |recv|
    ensures s.last == |recv| || recv[s.last] == Rows.Delimiter
    ensures forall j :: p <= j < s.last ==> recv[j] != Rows.Delimiter
    ensures forall j :: s.first < j < s.last ==> recv[j] != Rows.Delimiter
    ensures (s.first < s.last && recv[s.first] == Rows.Delimiter)
            || (s.first == 0 && forall j :: 0 <= j < s.last ==> recv[j] != Rows.Delimiter)
  {
    var last := match FindFrom(recv, Rows.Delimiter, p) case Some(d) => d case None => |recv|;
    var first := match FindLastBefore(recv, Rows.Delimiter, last) case Some(d) => d case None => 0;
    Span(first, last)
  }

  /** The reply narrowed by `MFind`: unchanged when `MFind` is empty or does
      not occur, otherwise the segment around its first occurrence. */
  function Segment(recv: string, mfind: string): (r: string)
    ensures mfind == [] || Find(recv, mfind, 0).None? ==> r == recv
    ensures mfind != [] && Find(recv, mfind, 0).Some? ==>
      forall j :: 0 < j < |r| ==> r[j] != Rows.Delimiter
  {
    if mfind == [] then recv
    else
      match Find(recv, mfind, 0)
      case None => recv
      case Some(p) =>
        var s := SpanAround(recv, p);
        assert forall j :: 0 < j < s.last - s.first ==> recv[s.first..s.last][j] == recv[s.first + j];
        recv[s.first..s.last]
  }

  /** When `MFind` holds no '|', the segment contains the occurrence. */
  lemma SegmentContainsMatch(recv: string, mfind: string)
    requires mfind != [] && Rows.Delimiter !in mfind && Find(recv, mfind, 0).Some?
    ensures Occurs(mfind, Segment(recv, mfind))
  {
    var p := Find(recv, mfind, 0).value;
    var s := SpanAround(recv, p);
    var r := Segment(recv, mfind);
    assert recv[p..p + |mfind|] == mfind;
    assert p + |mfind| <= s.last;
    var q := p - s.first;
    assert r[q..q + |mfind|] == mfind by {
      forall j | 0 <= j < |mfind|
        ensures r[q + j] == mfind[j]
      {
        assert r[q + j] == recv[p + j] == recv[p..p + |mfind|][j];
      }
    }
    assert HasAt(r, q, mfind);
  }

  /** The segment is the '|'-piece of the reply in which the match starts,
      with the '|' before it when there is one. */
  lemma SegmentIsPiece(recv: string, mfind: string)
    requires mfind != [] && Find(recv, mfind, 0).Some?
    ensures var i := CountChar(recv[..Find(recv, mfind, 0).value], Rows.Delimiter);
      && i < |Rows.Split(recv)|
      && (i == 0 ==> Segment(recv, mfind) == Rows.Split(recv)[0])
      && (i > 0 ==> Segment(recv, mfind) == [Rows.Delimiter] + Rows.Split(recv)[i])
  {
    var p := Find(recv, mfind, 0).value;
    var s := SpanAround(recv, p);
    if s.first < s.last && recv[s.first] == Rows.Delimiter {
      LaterPiece(recv, p, s);
    } else {
      FirstPiece(recv, p, s);
    }
  }

  /** No '|' before the end of the span: the span is the first piece. */
  lemma FirstPiece(recv: string, p: nat, s: Span)
    requires p <= |recv| && s == SpanAround(recv, p)
    requires s.first == 0 && forall j :: 0 <= j < s.last ==> recv[j] != Rows.Delimiter
    ensures CountChar(recv[..p], Rows.Delimiter) == 0
    ensures recv[s.first..s.last] == Rows.Split(recv)[0]
  {
    Rows.SplitPiece(recv, 0, s.last);
    assert recv[..0] == [];
    var head := recv[..p];
    assert Rows.Delimiter !in head by {
      forall j | 0 <= j < |head|
        ensures head[j] != Rows.Delimiter
      {
        assert head[j] == recv[j];
      }
    }
    CountCharAbsent(head, Rows.Delimiter);
  }

  /** A '|' at `s.first`: the span is that '|' followed by the piece it opens. */
  lemma LaterPiece(recv: string, p: nat, s: Span)
    requires p <= |recv| && s == SpanAround(recv, p)
    requires s.first < s.last && recv[s.first] == Rows.Delimiter
    ensures var i := CountChar(recv[..p], Rows.Delimiter);
      && 0 < i < |Rows.Split(recv)|
      && recv[s.first..s.last] == [Rows.Delimiter] + Rows.Split(recv)[i]
  {
    var f := s.first;
    Rows.SplitPiece(recv, f + 1, s.last);
    CountUpTo(recv, f, p);
    SliceCons(recv, f, s.last);
  }

  /** The '|' count before `p` is the one through the last '|' before it. */
  lemma CountUpTo(recv: string, f: nat, p: nat)
    requires f < p <= |recv| && recv[f] == Rows.Delimiter
    requires forall j :: f < j < p ==> recv[j] != Rows.Delimiter
    ensures CountChar(recv[..p], Rows.Delimiter) == CountChar(recv[..f + 1], Rows.Delimiter) > 0
  {
    var upto := recv[..f + 1];
    var mid := recv[f + 1..p];
    assert recv[..p] == upto + mid;
    CountCharAppend(upto, mid, Rows.Delimiter);
    assert Rows.Delimiter !in mid by {
      forall j | 0 <= j < |mid|
        ensures mid[j] != Rows.Delimiter
      {
        assert mid[j] == recv[f + 1 + j];
      }
    }
    CountCharAbsent(mid, Rows.Delimiter);
    assert upto[f] == Rows.Delimiter;
    CountCharAbsent(upto, Rows.Delimiter);
  }


  lemma SliceCons(s: string, a: nat, b: nat)
    requires a < b <= |s|
    ensures s[a..b] == [s[a]] + s[a + 1..b]
  {
  }

  // ---------------------------------------------------------------------------
  // ValName: the `name=value` capture

  /** The search `ValName=([^ ]+)` can match at `q`: the key occurs there
      and at least one non-space character follows it. */
  predicate MatchesAt(text: string, key: string, q: nat) {
    HasAt(text, q, key) && q + |key| < |text| && text[q + |key|] != ' '
  }

  /** The longest run of non-space characters starting at `start`. */
  function RunFrom(text: string, start: nat): (r: string)
    requires start <= |text|
    ensures start + |r| <= |text| && r == text[start..start + |r|]
    ensures ' ' !in r
    ensures start + |r| == |text| || text[start + |r|] == ' '
    ensures start < |text| && text[start] != ' ' ==> r != []
  {
    var e := match FindFrom(text, ' ', start) case Some(e) => e case None => |text|;
    assert forall j :: 0 <= j < e - start ==> text[start..e][j] == text[start + j];
    text[start..e]
  }

  /** A match of the capture: where it starts and the captured value. */
  datatype Capture = Capture(at: nat, value: string)

  /** The leftmost match at or after `from`, with the greedy value. */
  function CaptureFrom(text: string, key: string, from: nat): (r: Option<Capture>)
    ensures r.Some? ==> from <= r.value.at && MatchesAt(text, key, r.value.at)
    ensures r.Some? ==> forall q :: from <= q < r.value.at ==> !MatchesAt(text, key, q)
    ensures r.Some? ==> r.value.value == RunFrom(text, r.value.at + |key|)
    ensures r.None? ==> forall q :: from <= q ==> !MatchesAt(text, key, q)
    decreases |text| - from
  {
    if from + |key| >= |text| then None
    else if MatchesAt(text, key, from) then Some(Capture(from, RunFrom(text, from + |key|)))
    else
      var r := CaptureFrom(text, key, from + 1);
      assert !MatchesAt(text, key, from);
      r
  }

  /** The literal text the capture looks for before the value. */
  function Key(name: string): (key: string)
    ensures |key| == |name| + 1 && key[|name|] == '='
  {
    name + "="
  }

  /** `regex_search` of `ValName=([^ ]+)` in the text, `ValName` read
      literally: the leftmost match, with the greedy value. */
  function CaptureValue(text: string, name: string): (r: Option<Capture>)
    ensures r.Some? ==> r.value.value != [] && ' ' !in r.value.value
    ensures r.Some? ==> MatchesAt(text, Key(name), r.value.at)
    ensures r.Some? ==> forall q: nat :: q < r.value.at ==> !MatchesAt(text, Key(name), q)
    ensures r.Some? ==> r.value.value == RunFrom(text, r.value.at + |Key(name)|)
    ensures r.None? ==> forall q :: !MatchesAt(text, Key(name), q)
  {
    CaptureFrom(text, Key(name), 0)
  }

  /** The value in `name=value value2` is captured up to the space. */
  lemma CaptureStopsAtSpace()
    ensures CaptureValue("clid=12 cid=3", "clid") == Some(Capture(0, "12"))
  {
    var text := "clid=12 cid=3";
    var key := Key("clid");
    assert key == "clid=";
    assert text[0..5] == key;
    assert MatchesAt(text, key, 0);
    assert FindFrom(text, ' ', 5) == Some(7) by {
      assert FindFrom(text, ' ', 7) == Some(7);
    }
    assert text[5..7] == "12";
  }

  // ---------------------------------------------------------------------------
  // MyVal: the nine capture slots

  /** The lowest-index empty slot, if any. */
  function FirstEmpty(slots: Template.Slots): (r: Option<nat>)
    ensures r.Some? ==> r.value < Template.SlotCount && slots[r.value] == []
    ensures r.Some? ==> forall k :: 0 <= k < r.value ==> slots[k] != []
    ensures r.None? ==> forall k :: 0 <= k < Template.SlotCount ==> slots[k] != []
  {
    FirstEmptyFrom(slots, 0)
  }

  function FirstEmptyFrom(slots: Template.Slots, from: nat): (r: Option<nat>)
    requires from <= Template.SlotCount
    requires forall k :: 0 <= k < from ==> slots[k] != []
    ensures r.Some? ==> from <= r.value < Template.SlotCount && slots[r.value] == []
    ensures r.Some? ==> forall k :: 0 <= k < r.value ==> slots[k] != []
    ensures r.None? ==> forall k :: 0 <= k < Template.SlotCount ==> slots[k] != []
    decreases Template.SlotCount - from
  {
    if from == Template.SlotCount then None
    else if slots[from] == [] then Some(from)
    else FirstEmptyFrom(slots, from + 1)
  }

  /** The slots after storing a captured value: it goes to the lowest empty
      slot and nowhere else; with every slot full nothing changes. */
  function Store(slots: Template.Slots, value: string): (r: Template.Slots)
    ensures FirstEmpty(slots).None? ==> r == slots
    ensures FirstEmpty(slots).Some? ==>
      forall k :: 0 <= k < Template.SlotCount ==>
        r[k] == (if k == FirstEmpty(slots).value then value else slots[k])
  {
    match FirstEmpty(slots)
    case None => slots
    case Some(k) => slots[k := value]
  }

  /** A filled slot is never overwritten, and the value lands in the first
      slot that was empty. */
  lemma StoreKeepsFilled(slots: Template.Slots, value: string)
    ensures forall k :: 0 <= k < Template.SlotCount && slots[k] != [] ==> Store(slots, value)[k] == slots[k]
    ensures forall k :: 0 <= k < Template.SlotCount && Store(slots, value)[k] != slots[k] ==>
      slots[k] == [] && Store(slots, value)[k] == value && forall j :: 0 <= j < k ==> slots[j] != []
  {
  }

  /** The loop at src/thread.cpp:105-110: scan the slots in order and fill
      the first empty one. */
  method StoreInFirstEmpty(slots: Template.Slots, value: string) returns (r: Template.Slots)
    ensures r == Store(slots, value)
  {
    r := slots;
    var idx := 0;
    while idx < Template.SlotCount
      invariant 0 <= idx <= Template.SlotCount
      invariant r == slots
      invariant forall k :: 0 <= k < idx ==> slots[k] != []
    {
      if r[idx] == [] {
        assert FirstEmpty(slots) == Some(idx);
        r := r[idx := value];
        return;
      }
      idx := idx + 1;
    }
  }

  // ---------------------------------------------------------------------------
  // One command of a list

  /** A queued command: its text (with placeholders), the `MFind` text that
      narrows its reply, and the `ValName` whose value is captured. */
  datatype Command = Command(template: string, mfind: string, valName: string)

  /** The slots after the reply `recv` to `cmd` has been processed. */
  function Process(slots: Template.Slots, cmd: Command, recv: string): (r: Template.Slots)
    ensures cmd.valName == [] ==> r == slots
    ensures forall k :: 0 <= k < Template.SlotCount && slots[k] != [] ==> r[k] == slots[k]
  {
    if cmd.valName == [] then slots
    else
      match CaptureValue(Segment(recv, cmd.mfind), cmd.valName)
      case None => slots
      case Some(c) =>
        StoreKeepsFilled(slots, c.value);
        Store(slots, c.value)
  }

  /** A list run: the texts sent and the slots at the end. */
  datatype ListRun = ListRun(sent: seq<string>, slots: Template.Slots)

  /** A command list run against its replies: each command is sent with its
      placeholders filled from the slots captured so far, then its reply is
      processed. */
  function RunList(slots: Template.Slots, commands: seq<Command>, replies: seq<string>): (r: ListRun)
    requires |replies| == |commands|
    ensures |r.sent| == |commands|
    ensures commands != [] ==> r.sent[0] == Template.Substitute(commands[0].template, slots)
    ensures forall k :: 0 <= k < Template.SlotCount && slots[k] != [] ==> r.slots[k] == slots[k]
    decreases |commands|
  {
    if commands == [] then ListRun([], slots)
    else
      var sent := Template.Substitute(commands[0].template, slots);
      var rest := RunList(Process(slots, commands[0], replies[0]), commands[1..], replies[1..]);
      ListRun([sent] + rest.sent, rest.slots)
  }

  /** The slots after the replies to `commands` have been processed, one
      after another. */
  function SlotsAfter(slots: Template.Slots, commands: seq<Command>, replies: seq<string>): (r: Template.Slots)
    requires |replies| == |commands|
    ensures forall k :: 0 <= k < Template.SlotCount && slots[k] != [] ==> r[k] == slots[k]
    decreases |commands|
  {
    if commands == [] then slots
    else SlotsAfter(Process(slots, commands[0], replies[0]), commands[1..], replies[1..])
  }

  /** The slots before command `i` are those the first command leaves,
      carried through the commands between. */
  lemma SlotsAfterCons(slots: Template.Slots, commands: seq<Command>, replies: seq<string>, i: nat)
    requires |replies| == |commands| && 0 < i <= |commands|
    ensures SlotsAfter(slots, commands[..i], replies[..i])
      == SlotsAfter(Process(slots, commands[0], replies[0]), commands[1..][..i - 1], replies[1..][..i - 1])
  {
    assert commands[..i][0] == commands[0] && replies[..i][0] == replies[0];
    assert commands[..i][1..] == commands[1..][..i - 1];
    assert replies[..i][1..] == replies[1..][..i - 1];
  }

  /** Every command of a list is sent with its placeholders filled from the
      slots captured by the commands before it, and the list ends with the
      slots captured by all of them. */
  lemma {:induction false} RunListSends(slots: Template.Slots, commands: seq<Command>, replies: seq<string>)
    requires |replies| == |commands|
    ensures RunList(slots, commands, replies).slots == SlotsAfter(slots, commands, replies)
    ensures forall i :: 0 <= i < |commands| ==>
      RunList(slots, commands, replies).sent[i]
        == Template.Substitute(commands[i].template, SlotsAfter(slots, commands[..i], replies[..i]))
    decreases |commands|
  {
    if commands != [] {
      var after := Process(slots, commands[0], replies[0]);
      RunListSends(after, commands[1..], replies[1..]);
      forall i | 0 <= i < |commands|
        ensures RunList(slots, commands, replies).sent[i]
          == Template.Substitute(commands[i].template, SlotsAfter(slots, commands[..i], replies[..i]))
      {
        if i == 0 {
          assert commands[..0] == [] && replies[..0] == [];
        } else {
          SlotsAfterCons(slots, commands, replies, i);
          assert commands[1..][i - 1] == commands[i];
          assert RunList(slots, commands, replies).sent[i] == RunList(after, commands[1..], replies[1..]).sent[i - 1];
        }
      }
    }
  }

  /** A value captured for one command fills the first empty slot, so a
      later command can use it as the placeholder with that slot's number. */
  lemma CapturedValueReachesNextCommand(slots: Template.Slots, cmd: Command, recv: string, next: Command)
    requires cmd.valName != [] && FirstEmpty(slots).Some?
    requires CaptureValue(Segment(recv, cmd.mfind), cmd.valName).Some?
    ensures var k := FirstEmpty(slots).value;
      var v := CaptureValue(Segment(recv, cmd.mfind), cmd.valName).value.value;
      var r := RunList(slots, [cmd, next], [recv, ""]);
      && r.slots[k] == v
      && r.sent[1] == Template.Substitute(next.template, slots[k := v])
  {
    var k := FirstEmpty(slots).value;
    var v := CaptureValue(Segment(recv, cmd.mfind), cmd.valName).value.value;
    var after := Process(slots, cmd, recv);
    assert after == slots[k := v];
    assert [cmd, next][1..] == [next];
    assert [recv, ""][1..] == [""];
    var tail := RunList(after, [next], [""]);
    assert tail.sent[0] == Template.Substitute(next.template, after);
    assert after[k] != [];
  }
}
