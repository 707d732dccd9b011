/**
 * The video page's chat replay (daiseihai/assets/javascript/video.js):
 * trimming the loaded chat log to the video, a cursor that follows the
 * playback time forwards and is re-found when the time goes backwards, and
 * a window of at most 60 drawn messages, newest first. All times are
 * integer milliseconds.
 */
module ChatPlayback {
  import opened Sorting

  /** A chat line: its time (raw when loaded, then relative to the video), team, user, text. */
  datatype Line = Line(time: int, team: string, user: string, text: string)

  /** `MAX_MESSAGES_NUM`. */
  const MaxMessages := 60

  function Min(a: int, b: int): int {
    if a <= b then a else b
  }

  function Max(a: int, b: int): int {
    if a >= b then a else b
  }

  /** `Array.prototype.slice(lo, hi)` for non-negative bounds: both clamp to the length. */
  function JsSlice<T>(s: seq<T>, lo: nat, hi: nat): seq<T> {
    var a, b := Min(lo, |s|), Min(hi, |s|);
    if a < b then s[a..b] else []
  }

  // ---------------------------------------------------------------------
  // loadChat: trimming the log to the video

  /** Every line's time made relative to the chat start. */
  function Shifted(rows: seq<Line>, chatStart: int): (r: seq<Line>)
    ensures |r| == |rows|
    ensures forall i :: 0 <= i < |rows| ==> r[i] == rows[i].(time := rows[i].time - chatStart)
  {
    seq(|rows|, i requires 0 <= i < |rows| => rows[i].(time := rows[i].time - chatStart))
  }

  /** The line that stops the trimming loop: not before the video, and after its end. */
  predicate Beyond(line: Line, duration: int) {
    !(line.time < 0) && line.time > duration
  }

  /** The first line from `i` on that is beyond the video, or the length. */
  function CutFrom(lines: seq<Line>, duration: int, i: nat): (k: nat)
    requires i <= |lines|
    ensures i <= k <= |lines|
    ensures forall j :: i <= j < k ==> !Beyond(lines[j], duration)
    ensures k < |lines| ==> Beyond(lines[k], duration)
    decreases |lines| - i
  {
    if i == |lines| || Beyond(lines[i], duration) then i else CutFrom(lines, duration, i + 1)
  }

  function Cut(lines: seq<Line>, duration: int): (k: nat)
    ensures k <= |lines|
    ensures forall j :: 0 <= j < k ==> !Beyond(lines[j], duration)
    ensures k < |lines| ==> Beyond(lines[k], duration)
  {
    CutFrom(lines, duration, 0)
  }

  /** `startIndex` after scanning `lines[..k]`: the last line before the video, or 0. */
  function LastNegative(lines: seq<Line>, k: nat): (j: nat)
    requires k <= |lines|
    ensures j == 0 || (j < k && lines[j].time < 0)
    ensures forall i :: j < i < k ==> lines[i].time >= 0
  {
    if k == 0 then 0
    else if lines[k - 1].time < 0 then k - 1
    else LastNegative(lines, k - 1)
  }

  /**
   * The chat data after `loadChat`: the shifted lines strictly after the
   * last one before the video and before the first one beyond it.
   */
  function Trimmed(rows: seq<Line>, chatStart: int, duration: int): seq<Line> {
    var lines := Shifted(rows, chatStart);
    var cut := Cut(lines, duration);
    JsSlice(lines, LastNegative(lines, cut) + 1, if cut < |lines| then cut else |lines| + 1)
  }

  /** Where the kept run starts and ends in the input. */
  function TrimStart(rows: seq<Line>, chatStart: int, duration: int): nat {
    var lines := Shifted(rows, chatStart);
    LastNegative(lines, Cut(lines, duration)) + 1
  }

  /**
   * The kept lines are a contiguous run of the input, in order, that never
   * includes the first row; each is the row with its time shifted.
   */
  lemma TrimmedIsRun(rows: seq<Line>, chatStart: int, duration: int)
    ensures var r, a := Trimmed(rows, chatStart, duration), TrimStart(rows, chatStart, duration);
      1 <= a && (|r| == 0 || a + |r| <= |rows|)
      && forall k :: 0 <= k < |r| ==> r[k] == rows[a + k].(time := rows[a + k].time - chatStart)
  {
    var lines := Shifted(rows, chatStart);
    var cut := Cut(lines, duration);
    var a := LastNegative(lines, cut) + 1;
    var r := Trimmed(rows, chatStart, duration);
    if |r| > 0 {
      assert a < cut;
      assert r == lines[a..cut];
    }
  }

  /** Every kept line lies within the video, `0 <= time <= duration`, sorted input or not. */
  lemma TrimmedWithinVideo(rows: seq<Line>, chatStart: int, duration: int)
    ensures forall line :: line in Trimmed(rows, chatStart, duration) ==> 0 <= line.time <= duration
  {
    var lines := Shifted(rows, chatStart);
    var cut := Cut(lines, duration);
    var a := LastNegative(lines, cut) + 1;
    var r := Trimmed(rows, chatStart, duration);
    if |r| > 0 {
      assert r == lines[a..cut];
      forall line | line in r ensures 0 <= line.time <= duration {
        var k :| 0 <= k < |r| && r[k] == line;
        assert line == lines[a + k];
      }
    }
  }

  predicate InVideo(line: Line, duration: int) {
    0 <= line.time <= duration
  }

  /** The lines a viewer sees during a video of length `duration`. */
  function Within(duration: int): Line -> bool {
    line => InVideo(line, duration)
  }

  predicate TimesSorted(lines: seq<Line>) {
    forall i, j :: 0 <= i < j < |lines| ==> lines[i].time <= lines[j].time
  }

  lemma ShiftedSorted(rows: seq<Line>, chatStart: int)
    requires TimesSorted(rows)
    ensures TimesSorted(Shifted(rows, chatStart))
  {
    var lines := Shifted(rows, chatStart);
    forall i, j | 0 <= i < j < |lines| ensures lines[i].time <= lines[j].time {
      assert rows[i].time <= rows[j].time;
    }
  }

  /** In a sorted log, no line from 1 up to the last one before the video is within it. */
  lemma BeforeOutside(lines: seq<Line>, a: nat, duration: int)
    requires TimesSorted(lines) && 1 <= a <= |lines| && (a == 1 || lines[a - 1].time < 0)
    ensures Filter(lines[1..a], Within(duration)) == []
  {
    var before := lines[1..a];
    forall x | x in before ensures !Within(duration)(x) {
      var k :| 0 <= k < |before| && before[k] == x;
      assert x == lines[k + 1];
      assert lines[k + 1].time <= lines[a - 1].time;
    }
    FilterNone(before, Within(duration));
  }

  /** In a sorted log, no line from the first one beyond the video on is within it. */
  lemma AfterOutside(lines: seq<Line>, cut: nat, duration: int)
    requires TimesSorted(lines) && cut <= |lines| && (cut < |lines| ==> Beyond(lines[cut], duration))
    ensures Filter(lines[cut..], Within(duration)) == []
  {
    var after := lines[cut..];
    forall x | x in after ensures !Within(duration)(x) {
      var k :| 0 <= k < |after| && after[k] == x;
      assert x == lines[cut + k];
      assert lines[cut].time <= lines[cut + k].time;
    }
    FilterNone(after, Within(duration));
  }

  /** Lines not before the video and not beyond it are all within it. */
  lemma BetweenInside(within: seq<Line>, duration: int)
    requires forall j :: 0 <= j < |within| ==> within[j].time >= 0 && !Beyond(within[j], duration)
    ensures Filter(within, Within(duration)) == within
  {
    forall x | x in within ensures Within(duration)(x) {
      var k :| 0 <= k < |within| && within[k] == x;
    }
    FilterAll(within, Within(duration));
  }

  /** A sorted log split at `a` and `cut`: only the middle part is within the video. */
  lemma SplitWindow(lines: seq<Line>, a: nat, cut: nat, duration: int)
    requires TimesSorted(lines) && 1 <= a <= cut <= |lines|
    requires cut < |lines| ==> Beyond(lines[cut], duration)
    requires a == 1 || lines[a - 1].time < 0
    requires forall i :: a <= i < cut ==> lines[i].time >= 0 && !Beyond(lines[i], duration)
    ensures Filter(lines[1..], Within(duration)) == lines[a..cut]
  {
    var before, within, after := lines[1..a], lines[a..cut], lines[cut..];
    assert lines[1..] == before + within + after;
    BeforeOutside(lines, a, duration);
    AfterOutside(lines, cut, duration);
    BetweenInside(within, duration);
    FilterMiddle(lines[1..], before, within, after, Within(duration));
  }

  /** A sorted log whose first line is beyond the video has nothing within it. */
  lemma NothingWithin(lines: seq<Line>, duration: int)
    requires TimesSorted(lines) && |lines| > 0 && Beyond(lines[0], duration)
    ensures Filter(lines[1..], Within(duration)) == []
  {
    assert lines[0..] == [lines[0]] + lines[1..];
    FilterAppend([lines[0]], lines[1..], Within(duration));
    AfterOutside(lines, 0, duration);
  }

  /** The run kept from a sorted log: all lines but the first that are within the video. */
  lemma SortedRunIsWindow(lines: seq<Line>, s: nat, cut: nat, duration: int)
    requires TimesSorted(lines) && |lines| > 0 && duration >= 0
    requires cut <= |lines| && (cut < |lines| ==> Beyond(lines[cut], duration))
    requires forall j :: 0 <= j < cut ==> !Beyond(lines[j], duration)
    requires s == 0 || (s < cut && lines[s].time < 0)
    requires forall i :: s < i < cut ==> lines[i].time >= 0
    ensures JsSlice(lines, s + 1, if cut < |lines| then cut else |lines| + 1)
      == Filter(lines[1..], Within(duration))
  {
    if s + 1 <= cut {
      SplitWindow(lines, s + 1, cut, duration);
    } else {
      NothingWithin(lines, duration);
    }
  }

  /**
   * For a chronological log, trimming keeps exactly the lines within the
   * video, apart from the first row.
   */
  lemma TrimmedSortedIsWindow(rows: seq<Line>, chatStart: int, duration: int)
    requires TimesSorted(rows) && duration >= 0
    ensures |rows| > 0 ==>
      Trimmed(rows, chatStart, duration) == Filter(Shifted(rows, chatStart)[1..], Within(duration))
  {
    if |rows| > 0 {
      var lines := Shifted(rows, chatStart);
      ShiftedSorted(rows, chatStart);
      var cut := Cut(lines, duration);
      var start := LastNegative(lines, cut);
      assert Trimmed(rows, chatStart, duration) == JsSlice(lines, start + 1, if cut < |lines| then cut else |lines| + 1);
      SortedRunIsWindow(lines, start, cut, duration);
    }
  }

  /** The trimming loop of `loadChat`, shifting each row's time in place. */
  method TrimChat(rows: seq<Line>, chatStart: int, duration: int) returns (kept: seq<Line>)
    ensures kept == Trimmed(rows, chatStart, duration)
  {
    var data := rows;
    ghost var lines := Shifted(rows, chatStart);
    var startIndex := 0;
    var endIndex := |data| + 1;
    var i := 0;
    while i < |data|
      invariant 0 <= i <= |data| == |rows|
      invariant forall k :: 0 <= k < i ==> data[k] == lines[k]
      invariant forall k :: i <= k < |data| ==> data[k] == rows[k]
      invariant forall k :: 0 <= k < i ==> !Beyond(lines[k], duration)
      invariant startIndex == LastNegative(lines, i)
      invariant endIndex == |data| + 1
    {
      data := data[i := data[i].(time := data[i].time - chatStart)];
      if data[i].time < 0 {
        startIndex := i;
      } else if data[i].time > duration {
        endIndex := i;
        break;
      }
      i := i + 1;
    }
    TrimExit(rows, chatStart, duration, data, i, startIndex, endIndex);
    kept := JsSlice(data, startIndex + 1, endIndex);
  }

  /** What the trimming loop leaves behind determines the kept run. */
  lemma TrimExit(rows: seq<Line>, chatStart: int, duration: int, data: seq<Line>, i: nat, startIndex: nat, endIndex: nat)
    requires |data| == |rows| && i <= |data|
    requires forall k :: 0 <= k < i ==> data[k] == Shifted(rows, chatStart)[k]
    requires forall k :: 0 <= k < i ==> !Beyond(Shifted(rows, chatStart)[k], duration)
    requires i < |data| ==> Beyond(Shifted(rows, chatStart)[i], duration) && endIndex == i
    requires i == |data| ==> endIndex == |data| + 1
    requires startIndex == LastNegative(Shifted(rows, chatStart), i)
    ensures JsSlice(data, startIndex + 1, endIndex) == Trimmed(rows, chatStart, duration)
  {
    var lines := Shifted(rows, chatStart);
    var cut := Cut(lines, duration);
    assert cut == i;
    assert data[..Min(endIndex, |data|)] == lines[..Min(endIndex, |data|)];
    SliceAgrees(data, lines, startIndex + 1, endIndex);
  }

  /** Slices of two sequences of one length agree when the sequences agree up to the slice's end. */
  lemma SliceAgrees<T>(a: seq<T>, b: seq<T>, lo: nat, hi: nat)
    requires |a| == |b| && a[..Min(hi, |a|)] == b[..Min(hi, |a|)]
    ensures JsSlice(a, lo, hi) == JsSlice(b, lo, hi)
  {
    var x, y := Min(lo, |a|), Min(hi, |a|);
    if x < y {
      assert a[x..y] == a[..y][x..] && b[x..y] == b[..y][x..];
    }
  }

  // ---------------------------------------------------------------------
  // updateChat: the cursor

  /** The first line strictly after `time`, or the length. */
  function FirstAfter(data: seq<Line>, time: int): (k: nat)
    ensures k <= |data|
    ensures forall j :: 0 <= j < k ==> data[j].time <= time
    ensures k < |data| ==> time < data[k].time
  {
    FirstAfterFrom(data, time, 0)
  }

  function FirstAfterFrom(data: seq<Line>, time: int, i: nat): (k: nat)
    requires i <= |data|
    ensures i <= k <= |data|
    ensures forall j :: i <= j < k ==> data[j].time <= time
    ensures k < |data| ==> time < data[k].time
    decreases |data| - i
  {
    if i == |data| || time < data[i].time then i else FirstAfterFrom(data, time, i + 1)
  }

  /** The cursor after going back in time: up to 60 lines before the first one after `time`. */
  function RewindIndex(data: seq<Line>, time: int): (k: nat)
    ensures k <= FirstAfter(data, time) <= k + MaxMessages
  {
    Max(FirstAfter(data, time) - MaxMessages, 0)
  }

  /** The rewind loop of `updateChat`. */
  method Rewind(data: seq<Line>, time: int) returns (index: nat)
    ensures index == RewindIndex(data, time)
  {
    index := 0;
    while index < |data|
      invariant 0 <= index <= |data|
      invariant forall j :: 0 <= j < index ==> data[j].time <= time
    {
      if time < data[index].time {
        break;
      }
      index := index + 1;
    }
    assert index == FirstAfter(data, time);
    index := Max(index - MaxMessages, 0);
  }

  /** Where the advance loop stops: the first line from `start` on after `time`. */
  function AdvanceEnd(data: seq<Line>, start: nat, time: int): (k: nat)
    ensures start <= k && (start <= |data| ==> k <= |data|)
    ensures forall j :: start <= j < k ==> j < |data| && data[j].time <= time
    ensures k < |data| ==> time < data[k].time
    ensures k == start || k <= |data|
  {
    if start >= |data| then start else FirstAfterFrom(data, time, start)
  }

  /** The lines the advance loop collects. */
  function Collected(data: seq<Line>, start: nat, time: int): (m: seq<Line>)
    ensures forall line :: line in m ==> line.time <= time
  {
    if start <= |data| then data[start..AdvanceEnd(data, start, time)] else []
  }

  /** Where the cursor resumes at `time`: rewound if the time went backwards, else where it stopped. */
  function ResumeIndex(data: seq<Line>, index: nat, previousTime: int, time: int): (k: nat)
    ensures previousTime > time ==> k + MaxMessages >= FirstAfter(data, time) >= k
    ensures previousTime <= time ==> k == index
  {
    if previousTime > time then RewindIndex(data, time) else index
  }

  /** What is left in the container at `time`: nothing if the time went backwards. */
  function ResumeWindow(window: seq<Line>, previousTime: int, time: int): seq<Line> {
    if previousTime > time then [] else window
  }

  /** The advance loop of `updateChat`: collect lines up to `time` and move the cursor past them. */
  method Advance(data: seq<Line>, start: nat, time: int) returns (messages: seq<Line>, next: nat)
    ensures next == AdvanceEnd(data, start, time)
    ensures messages == Collected(data, start, time)
  {
    messages := [];
    next := start;
    while next < |data|
      invariant start <= next && (start <= |data| ==> next <= |data|)
      invariant next == start || next <= |data|
      invariant forall j :: start <= j < next ==> data[j].time <= time
      invariant start <= |data| ==> messages == data[start..next]
      invariant start > |data| ==> messages == []
    {
      var line := data[next];
      if line.time <= time {
        messages := messages + [line];
        next := next + 1;
      } else {
        break;
      }
    }
    assert next == AdvanceEnd(data, start, time);
  }

  /**
   * After a rewind the advance loop reaches the first line after `time`
   * again, collecting the (up to) 60 lines before it: the newest lines at
   * or before `time` when the log is chronological.
   */
  lemma RewindThenAdvance(data: seq<Line>, time: int)
    ensures AdvanceEnd(data, RewindIndex(data, time), time) == FirstAfter(data, time)
    ensures Collected(data, RewindIndex(data, time), time) == Last60(data[..FirstAfter(data, time)])
  {
    var k := FirstAfter(data, time);
    var r := RewindIndex(data, time);
    assert data[..k][|data[..k]| - Min(|data[..k]|, MaxMessages)..] == data[r..k];
  }

  /** Moving forwards never moves the cursor back. */
  lemma AdvanceMonotone(data: seq<Line>, start: nat, t1: int, t2: int)
    requires t1 <= t2 && start <= |data|
    ensures AdvanceEnd(data, start, t1) <= AdvanceEnd(data, start, t2)
  {
  }

  // ---------------------------------------------------------------------
  // updateChat: the drawn window

  /** `messages.slice(-MAX_MESSAGES_NUM)`: the last 60. */
  function Last60(m: seq<Line>): (r: seq<Line>)
    ensures |r| == Min(|m|, MaxMessages)
    ensures r == m[|m| - |r|..]
  {
    m[|m| - Min(|m|, MaxMessages)..]
  }

  /** `createMessage` draws every line except those of the ignored user. */
  predicate Drawn(line: Line) {
    line.user != "Blinkyy"
  }

  /** `refreshChatWindow`: keep the first (newest) 60 children. */
  function Keep60(w: seq<Line>): (r: seq<Line>)
    ensures |r| == Min(|w|, MaxMessages) && r == w[..|r|]
  {
    if |w| <= MaxMessages then w else w[..MaxMessages]
  }

  /**
   * The container after drawing `messages` over `base`: each drawn line
   * prepended in turn, then the oldest children dropped down to 60.
   */
  function Shown(base: seq<Line>, messages: seq<Line>): seq<Line> {
    if |messages| == 0 then base else Keep60(Reverse(Filter(Last60(messages), Drawn)) + base)
  }

  /** The window never holds more than 60 messages. */
  lemma ShownBounded(base: seq<Line>, messages: seq<Line>)
    requires |base| <= MaxMessages
    ensures |Shown(base, messages)| <= MaxMessages
  {
  }

  /** Drawing one more line prepends it, if it is drawn at all. */
  lemma DrawOne(m: seq<Line>, x: Line)
    ensures Reverse(Filter(m + [x], Drawn)) == (if Drawn(x) then [x] else []) + Reverse(Filter(m, Drawn))
  {
    FilterAppend(m, [x], Drawn);
    assert [x][1..] == [];
    var f := Filter(m, Drawn);
    if Drawn(x) {
      assert Filter([x], Drawn) == [x];
      ReverseSnoc(f, x);
    } else {
      assert Filter([x], Drawn) == [];
      assert f + [] == f;
    }
  }

  /** The window after drawing `m[..i + 1]` over `base`, from the one after `m[..i]`. */
  lemma DrawStep(m: seq<Line>, i: nat, base: seq<Line>)
    requires i < |m|
    ensures var before := Reverse(Filter(m[..i], Drawn)) + base;
      Reverse(Filter(m[..i + 1], Drawn)) + base == if Drawn(m[i]) then [m[i]] + before else before
  {
    var drawn := Reverse(Filter(m[..i], Drawn));
    assert m[..i + 1] == m[..i] + [m[i]];
    DrawOne(m[..i], m[i]);
    if Drawn(m[i]) {
      assert ([m[i]] + drawn) + base == [m[i]] + (drawn + base);
    } else {
      assert [] + drawn == drawn;
    }
  }

  /** The newest line of a batch, when drawn, ends up first in the window. */
  lemma ShownNewestFirst(base: seq<Line>, messages: seq<Line>)
    requires |messages| > 0 && Drawn(messages[|messages| - 1])
    ensures Shown(base, messages)[0] == messages[|messages| - 1]
  {
    var last := Last60(messages);
    var n := |last|;
    assert last == last[..n - 1] + [last[n - 1]];
    DrawOne(last[..n - 1], last[n - 1]);
  }

  /** The window holds only older children and drawn lines of this batch. */
  lemma ShownMembers(base: seq<Line>, messages: seq<Line>)
    ensures forall line :: line in Shown(base, messages) ==>
      line in base || (line in messages && Drawn(line))
  {
    if |messages| > 0 {
      var last := Last60(messages);
      var f := Filter(last, Drawn);
      ReverseMembers(f);
      var w := Reverse(f) + base;
      forall line | line in Keep60(w) ensures line in base || (line in messages && Drawn(line)) {
        assert line in w;
        if line in Reverse(f) {
          var k :| 0 <= k < |last| && last[k] == line;
          assert line == messages[|messages| - |last| + k];
        }
      }
    }
  }

  /** The chat container, the cursor and the timing state of the page. */
  class ChatPlayer {
    var chatData: seq<Line>
    var chatDelay: int
    var chatIndex: nat
    var chatStart: int
    var previousTime: int
    /** The container's messages, first child first. */
    var window: seq<Line>

    ghost predicate Valid()
      reads this
    {
      |window| <= MaxMessages
    }

    /** The page state once `ready` has read the chat start. */
    constructor(chatStart: int)
      ensures Valid()
      ensures this.chatStart == chatStart
      ensures chatData == [] && chatDelay == 0 && chatIndex == 0 && previousTime == 0 && window == []
    {
      this.chatStart := chatStart;
      chatData := [];
      chatDelay := 0;
      chatIndex := 0;
      previousTime := 0;
      window := [];
    }

    /** `adjustChatDelay`: the delay is the running sum of the button amounts. */
    method AdjustChatDelay(amount: int)
      modifies this
      ensures chatDelay == old(chatDelay) + amount
      ensures chatData == old(chatData) && chatIndex == old(chatIndex) && chatStart == old(chatStart)
      ensures previousTime == old(previousTime) && window == old(window)
    {
      chatDelay := chatDelay + amount;
    }

    /** `loadChat`, once the log is parsed: keep the lines within the video. */
    method LoadChat(rows: seq<Line>, duration: int)
      modifies this
      ensures chatData == Trimmed(rows, old(chatStart), duration)
      ensures chatDelay == old(chatDelay) && chatIndex == old(chatIndex) && chatStart == old(chatStart)
      ensures previousTime == old(previousTime) && window == old(window)
    {
      chatData := TrimChat(rows, chatStart, duration);
    }

    /** `clearChat`: remove every child, first child first. */
    method ClearChat()
      modifies this
      ensures window == []
      ensures chatData == old(chatData) && chatDelay == old(chatDelay) && chatIndex == old(chatIndex)
      ensures chatStart == old(chatStart) && previousTime == old(previousTime)
    {
      while |window| > 0
        invariant chatData == old(chatData) && chatDelay == old(chatDelay) && chatIndex == old(chatIndex)
        invariant chatStart == old(chatStart) && previousTime == old(previousTime)
        decreases |window|
      {
        window := window[1..];
      }
    }

    /** `createMessage`: prepend the line unless its user is ignored. */
    method CreateMessage(line: Line)
      modifies this
      ensures window == if Drawn(line) then [line] + old(window) else old(window)
      ensures chatData == old(chatData) && chatDelay == old(chatDelay) && chatIndex == old(chatIndex)
      ensures chatStart == old(chatStart) && previousTime == old(previousTime)
    {
      if line.user == "Blinkyy" {
        return;
      }
      window := [line] + window;
    }

    /** `refreshChatWindow`: remove the last child while there are more than 60. */
    method RefreshChatWindow()
      modifies this
      ensures window == Keep60(old(window))
      ensures chatData == old(chatData) && chatDelay == old(chatDelay) && chatIndex == old(chatIndex)
      ensures chatStart == old(chatStart) && previousTime == old(previousTime)
    {
      while |window| > MaxMessages
        invariant Min(|old(window)|, MaxMessages) <= |window| <= |old(window)|
        invariant window == old(window)[..|window|]
        invariant chatData == old(chatData) && chatDelay == old(chatDelay) && chatIndex == old(chatIndex)
        invariant chatStart == old(chatStart) && previousTime == old(previousTime)
        decreases |window|
      {
        window := window[..|window| - 1];
      }
    }

    /** The drawing loop of `updateChat`: `createMessage` for each line of the batch in turn. */
    method DrawBatch(batch: seq<Line>)
      modifies this
      ensures window == Reverse(Filter(batch, Drawn)) + old(window)
      ensures chatData == old(chatData) && chatDelay == old(chatDelay) && chatIndex == old(chatIndex)
      ensures chatStart == old(chatStart) && previousTime == old(previousTime)
    {
      ghost var base := window;
      var i := 0;
      while i < |batch|
        invariant 0 <= i <= |batch|
        invariant window == Reverse(Filter(batch[..i], Drawn)) + base
        invariant chatData == old(chatData) && chatDelay == old(chatDelay) && chatIndex == old(chatIndex)
        invariant chatStart == old(chatStart) && previousTime == old(previousTime)
      {
        DrawStep(batch, i, base);
        CreateMessage(batch[i]);
        i := i + 1;
      }
      assert batch[..i] == batch;
    }

    /** The drawing part of `updateChat`: the last 60 collected lines, oldest first, then the trim. */
    method Draw(messages: seq<Line>)
      modifies this
      ensures window == Shown(old(window), messages)
      ensures chatData == old(chatData) && chatDelay == old(chatDelay) && chatIndex == old(chatIndex)
      ensures chatStart == old(chatStart) && previousTime == old(previousTime)
    {
      if |messages| == 0 {
        return;
      }
      DrawBatch(Last60(messages));
      RefreshChatWindow();
    }

    /**
     * `updateChat` at playback position `playbackMs` (the video's current
     * time, floored to milliseconds): re-find the cursor if the time went
     * backwards, collect the lines up to the delayed time, draw the last 60
     * of them, and remember the time.
     */
    method Update(playbackMs: int)
      requires Valid()
      modifies this
      ensures Valid()
      ensures previousTime == playbackMs - old(chatDelay)
      ensures chatData == old(chatData) && chatDelay == old(chatDelay) && chatStart == old(chatStart)
      ensures chatIndex == AdvanceEnd(chatData, ResumeIndex(chatData, old(chatIndex), old(previousTime), previousTime), previousTime)
      ensures window == Shown(ResumeWindow(old(window), old(previousTime), previousTime),
        Collected(chatData, ResumeIndex(chatData, old(chatIndex), old(previousTime), previousTime), previousTime))
    {
      var time := playbackMs - chatDelay;
      if previousTime > time {
        ClearChat();
        chatIndex := Rewind(chatData, time);
      }
      ghost var start := chatIndex;
      ghost var base := window;
      assert start == ResumeIndex(chatData, old(chatIndex), old(previousTime), time);
      assert base == ResumeWindow(old(window), old(previousTime), time);
      var messages;
      messages, chatIndex := Advance(chatData, chatIndex, time);
      ghost var data := chatData;
      assert messages == Collected(data, start, time);
      Draw(messages);
      assert window == Shown(base, messages) && chatData == data;
      ShownBounded(base, messages);
      previousTime := time;
    }
  }
}
