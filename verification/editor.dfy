/** The frame editor: an ordered, never-empty list of frames with one of
    them selected, the handlers that edit it, and the playback step that
    walks through it. Every handler is a pure transition from one editor
    state to the next. */
module Editor {
  import opened Addressing
  import opened Grid
  import Seqs

  /** The animation and the index of the frame being edited. */
  datatype Editor = Editor(frames: seq<Frame>, selected: int)

  predicate FrameOk(f: Frame) {
    f.wait >= 0 && Positional(f.pattern)
  }

  /** What every reachable editor state satisfies: at least one frame, a
      selection that indexes one, and well-formed frames. */
  predicate Valid(e: Editor) {
    |e.frames| >= 1 && 0 <= e.selected < |e.frames| &&
    forall i :: 0 <= i < |e.frames| ==> FrameOk(e.frames[i])
  }

  function Current(e: Editor): Frame
    requires Valid(e)
  {
    e.frames[e.selected]
  }

  /** Replaces the selected frame, leaving everything else alone. */
  function WithCurrent(e: Editor, f: Frame): Editor
    requires Valid(e)
  {
    Editor(e.frames[e.selected := f], e.selected)
  }

  /** The start-up state: one fresh frame, selected. */
  function Initial(): (e: Editor)
    ensures Valid(e)
    ensures |e.frames| == 1 && e.selected == 0
    ensures Current(e) == DefaultFrame()
    ensures Current(e).wait == DEFAULT_WAIT && ActiveLeds(Current(e).pattern) == []
    ensures forall y, x :: InGrid(x, y) ==> Current(e).pattern[y][x].color == DEFAULT_COLOR
  {
    Editor([DefaultFrame()], 0)
  }

  /** A click on the cell at column `x`, row `y`, which was drawn with lit
      state `on`: the cell takes the negation of `on` and the active colour;
      its wire index, every other cell, the wait and every other frame are
      untouched. */
  function LedClick(e: Editor, x: int, y: int, on: bool, activeColor: string): (r: Editor)
    requires Valid(e) && InGrid(x, y)
    ensures Valid(r)
    ensures r.selected == e.selected && |r.frames| == |e.frames|
    ensures forall i :: 0 <= i < |e.frames| && i != e.selected ==> r.frames[i] == e.frames[i]
    ensures Current(r).wait == Current(e).wait
    ensures Current(r).pattern[y][x] == Led(!on, activeColor, Current(e).pattern[y][x].led)
    ensures forall y', x' :: InGrid(x', y') && (y' != y || x' != x) ==>
      Current(r).pattern[y'][x'] == Current(e).pattern[y'][x']
  {
    var f := Current(e);
    var row := f.pattern[y];
    var cell := row[x];
    WithCurrent(e, Frame(f.wait, f.pattern[y := row[x := Led(!on, activeColor, cell.led)]]))
  }

  /** Clicking a cell with the state it is drawn in toggles exactly its wire
      index in the frame's list of lit LEDs. */
  lemma ClickTogglesActiveLed(e: Editor, x: int, y: int, activeColor: string)
    requires Valid(e) && InGrid(x, y)
    ensures var a := ActiveLeds(Current(e).pattern);
      var b := ActiveLeds(Current(LedClick(e, x, y, Current(e).pattern[y][x].on, activeColor)).pattern);
      (LedNumber(x, y) in b <==> LedNumber(x, y) !in a) &&
      forall n :: n != LedNumber(x, y) ==> (n in b <==> n in a)
  {
    var p: Pattern := Current(e).pattern;
    var q: Pattern := Current(LedClick(e, x, y, p[y][x].on, activeColor)).pattern;
    var a, b := ActiveLeds(p), ActiveLeds(q);
    forall n
      ensures n in b <==> (if n == LedNumber(x, y) then n !in a else n in a)
    {
      if n in a {
        var y': int, x': int :| InGrid(x', y') && p[y'][x'].on && p[y'][x'].led == n;
        if n == LedNumber(x, y) {
          LedNumberInjective(x', y', x, y);
        }
      }
      if n in b {
        var y': int, x': int :| InGrid(x', y') && q[y'][x'].on && q[y'][x'].led == n;
        if n == LedNumber(x, y) {
          LedNumberInjective(x', y', x, y);
        }
      }
      if n == LedNumber(x, y) {
        if p[y][x].on {
          assert n in a;
        } else {
          assert n in b;
        }
      }
    }
  }

  /** The frame-length input: a negative value is ignored; any other value
      becomes the selected frame's wait and nothing else changes. */
  function ChangeFrameLength(e: Editor, delay: int): (r: Editor)
    requires Valid(e)
    ensures Valid(r)
    ensures delay < 0 ==> r == e
    ensures delay >= 0 ==>
      r.selected == e.selected && |r.frames| == |e.frames| &&
      Current(r).wait == delay && Current(r).pattern == Current(e).pattern &&
      forall i :: 0 <= i < |e.frames| && i != e.selected ==> r.frames[i] == e.frames[i]
  {
    if delay >= 0 then WithCurrent(e, Frame(delay, Current(e).pattern)) else e
  }

  /** Clear: the selected frame gets a fresh, all-off grid and keeps its
      wait; the other frames and the selection are untouched. */
  function Clear(e: Editor): (r: Editor)
    requires Valid(e)
    ensures Valid(r)
    ensures r.selected == e.selected && |r.frames| == |e.frames|
    ensures forall i :: 0 <= i < |e.frames| && i != e.selected ==> r.frames[i] == e.frames[i]
    ensures Current(r).wait == Current(e).wait
    ensures Current(r).pattern == DefaultFrame().pattern
    ensures ActiveLeds(Current(r).pattern) == []
    ensures forall y, x :: InGrid(x, y) ==>
      !Current(r).pattern[y][x].on && Current(r).pattern[y][x].color == DEFAULT_COLOR
  {
    var r := WithCurrent(e, Frame(Current(e).wait, DefaultGrid([], DEFAULT_COLOR)));
    NoneLitListsNothing(Current(r).pattern);
    r
  }

  /** A decoded image replaces the selected frame's grid; the wait and the
      other frames are kept. */
  function ApplyDecoded(e: Editor, pattern: Pattern): (r: Editor)
    requires Valid(e)
    ensures Positional(pattern) ==> Valid(r)
    ensures r.selected == e.selected && |r.frames| == |e.frames|
    ensures forall i :: 0 <= i < |e.frames| && i != e.selected ==> r.frames[i] == e.frames[i]
    ensures r.frames[e.selected].wait == Current(e).wait
    ensures r.frames[e.selected].pattern == pattern
  {
    WithCurrent(e, Frame(Current(e).wait, pattern))
  }

  /** Delete all: back to one fresh frame, selected. */
  function DeleteAll(e: Editor): (r: Editor)
    ensures Valid(r)
    ensures |r.frames| == 1 && r.selected == 0
    ensures Current(r) == DefaultFrame()
    ensures Current(r).wait == DEFAULT_WAIT && ActiveLeds(Current(r).pattern) == []
    ensures forall y, x :: InGrid(x, y) ==> Current(r).pattern[y][x].color == DEFAULT_COLOR
  {
    Initial()
  }

  /** Add: one fresh frame appended, the earlier frames kept, the new frame
      selected. */
  function AddFrame(e: Editor): (r: Editor)
    requires Valid(e)
    ensures Valid(r)
    ensures |r.frames| == |e.frames| + 1 && r.frames[..|e.frames|] == e.frames
    ensures r.selected == |e.frames|
    ensures Current(r) == DefaultFrame()
    ensures Current(r).wait == DEFAULT_WAIT && ActiveLeds(Current(r).pattern) == []
    ensures forall y, x :: InGrid(x, y) ==>
      !Current(r).pattern[y][x].on && Current(r).pattern[y][x].color == DEFAULT_COLOR
  {
    Editor(e.frames + [DefaultFrame()], |e.frames|)
  }

  /** Clone: a copy of the selected frame appended, the earlier frames kept,
      the copy selected. The earlier frames are copied by value and the
      selected one is appended as it is, so no two frames of the new list
      share storage, and a value model of the list is exact. */
  function Clone(e: Editor): (r: Editor)
    requires Valid(e)
    ensures Valid(r)
    ensures |r.frames| == |e.frames| + 1 && r.frames[..|e.frames|] == e.frames
    ensures r.selected == |e.frames|
    ensures Current(r) == Current(e)
  {
    Editor(e.frames + [Current(e)], |e.frames|)
  }

  /** Delete: with more than one frame, exactly the selected frame is
      removed, the others keep their order and the first is selected; with
      one frame nothing happens. */
  function DeleteFrame(e: Editor): (r: Editor)
    requires Valid(e)
    ensures Valid(r)
    ensures |e.frames| == 1 ==> r == e
    ensures |e.frames| > 1 ==>
      |r.frames| == |e.frames| - 1 && r.selected == 0 &&
      (forall i :: 0 <= i < e.selected ==> r.frames[i] == e.frames[i]) &&
      (forall i :: e.selected <= i < |r.frames| ==> r.frames[i] == e.frames[i + 1])
  {
    if |e.frames| > 1 then
      var rest := e.frames[..e.selected] + e.frames[e.selected + 1..];
      Seqs.RemoveAt(e.frames, e.selected, rest);
      Editor(rest, 0)
    else e
  }

  /** A frame button: selects frame `i`. */
  function Select(e: Editor, i: int): (r: Editor)
    requires Valid(e) && 0 <= i < |e.frames|
    ensures Valid(r) && r.frames == e.frames && r.selected == i && Current(r) == e.frames[i]
  {
    Editor(e.frames, i)
  }

  /** Typing a letter: when the font lists a non-empty set of wire indices
      for it, a one-second frame lighting exactly those indices in the active
      colour is appended and selected; otherwise nothing happens. */
  function AddLetter(e: Editor, font: map<string, seq<int>>, letter: string, activeColor: string): (r: Editor)
    requires Valid(e)
    ensures Valid(r)
    ensures !(letter in font && |font[letter]| > 0) ==> r == e
    ensures letter in font && |font[letter]| > 0 ==>
      |r.frames| == |e.frames| + 1 && r.frames[..|e.frames|] == e.frames &&
      r.selected == |e.frames| && Current(r).wait == DEFAULT_WAIT &&
      ActiveLeds(Current(r).pattern) == CanonicalIds(font[letter]) &&
      forall y, x :: InGrid(x, y) ==> Current(r).pattern[y][x].color == activeColor
  {
    if letter in font && |font[letter]| > 0 then
      var f := Frame(DEFAULT_WAIT, DefaultGrid(font[letter], activeColor));
      PatternRoundTrip(font[letter], Wrappers.Some(activeColor));
      Editor(e.frames + [f], |e.frames|)
    else e
  }

  /** Deleting a frame just appended and selected removes it again. */
  lemma DeleteUndoesAppend(e: Editor, f: Frame)
    requires Valid(e) && FrameOk(f)
    ensures Valid(Editor(e.frames + [f], |e.frames|))
    ensures DeleteFrame(Editor(e.frames + [f], |e.frames|)) == Editor(e.frames, 0)
  {
    var a := Editor(e.frames + [f], |e.frames|);
    assert a.frames[..a.selected] == e.frames;
    assert a.frames[a.selected + 1..] == [];
  }

  /** Deleting right after adding removes the added frame again. */
  lemma DeleteUndoesAdd(e: Editor)
    requires Valid(e)
    ensures DeleteFrame(AddFrame(e)) == Editor(e.frames, 0)
  {
    DeleteUndoesAppend(e, DefaultFrame());
  }

  /** Deleting right after cloning removes the clone again. */
  lemma DeleteUndoesClone(e: Editor)
    requires Valid(e)
    ensures DeleteFrame(Clone(e)) == Editor(e.frames, 0)
  {
    DeleteUndoesAppend(e, Current(e));
  }

  /** Editing the original after a clone leaves the clone as it was. */
  lemma CloneIsIsolated(e: Editor, x: int, y: int, on: bool, activeColor: string)
    requires Valid(e) && InGrid(x, y)
    ensures LedClick(Select(Clone(e), e.selected), x, y, on, activeColor).frames[|e.frames|] == Current(e)
  {
  }

  function DeleteTimes(e: Editor, k: nat): Editor
    requires Valid(e)
    decreases k
  {
    if k == 0 then e else DeleteTimes(DeleteFrame(e), k - 1)
  }

  /** Repeated deletes shrink the list one frame at a time and stop at one
      frame: the list is never empty and the selection stays valid. */
  lemma {:induction false} DeleteNeverEmpties(e: Editor, k: nat)
    requires Valid(e)
    ensures Valid(DeleteTimes(e, k))
    ensures |DeleteTimes(e, k).frames| == if |e.frames| - k >= 1 then |e.frames| - k else 1
    decreases k
  {
    if k > 0 {
      DeleteNeverEmpties(DeleteFrame(e), k - 1);
    }
  }

  /** A pending timeout, if any, with its delay in milliseconds. */
  datatype Timer = Idle | Pending(delay: int)

  /** Playback: whether it runs, the frame cursor of the running timer chain
      (-1 before the first tick) and the one pending timeout. */
  datatype Playback = Playback(playing: bool, cursor: int, timer: Timer)

  const STOPPED: Playback := Playback(false, 0, Idle)

  /** The cursor step of each tick: to the next frame, wrapping to the first
      after the last; from -1 (just started) to the first. */
  function Advance(count: int, i: int): (j: int)
    requires count >= 1 && i >= -1
    ensures 0 <= j < count
    ensures i < count ==> j == (i + 1) % count
  {
    if i < count - 1 then i + 1 else 0
  }

  /** The delay `animate` schedules its next tick with: none for the start
      marker -1, otherwise the wait of the frame the cursor is on (a cursor
      below -1 reads the first frame). */
  function TickDelay(frames: seq<Frame>, start: int): (d: int)
    requires |frames| >= 1 && start < |frames|
    ensures start == -1 ==> d == 0
    ensures 0 <= start ==> d == frames[start].wait
    ensures start < -1 ==> d == frames[0].wait
    ensures (forall i :: 0 <= i < |frames| ==> frames[i].wait >= 0) ==> d >= 0
  {
    if start == -1 then 0 else frames[if start < 0 then 0 else start].wait
  }

  /** The play/pause button: starting sets the cursor to -1 with a tick due
      at once; pausing cancels the pending tick and keeps the cursor. */
  function TogglePlay(frames: seq<Frame>, pb: Playback): (r: Playback)
    requires |frames| >= 1
    ensures r.playing == !pb.playing
    ensures r.playing ==> r.cursor == -1 && r.timer == Pending(0)
    ensures !r.playing ==> r.cursor == pb.cursor && r.timer == Idle
  {
    if !pb.playing then Playback(true, -1, Pending(TickDelay(frames, -1)))
    else Playback(false, pb.cursor, Idle)
  }

  /** A tick: the cursor moves one frame on, cyclically, and the next tick
      is scheduled after the new frame's wait. */
  function Tick(frames: seq<Frame>, pb: Playback): (r: Playback)
    requires |frames| >= 1 && pb.timer.Pending? && -1 <= pb.cursor < |frames|
    ensures 0 <= r.cursor < |frames| && r.cursor == (pb.cursor + 1) % |frames|
    ensures r.playing == pb.playing && r.timer == Pending(frames[r.cursor].wait)
  {
    var next := Advance(|frames|, pb.cursor);
    Playback(pb.playing, next, Pending(TickDelay(frames, next)))
  }

  /** A tick as the editor sees it. The timer chain steps over `captured`,
      the frame list of the render in which play was pressed. It holds that
      render's frame objects, so only in-place edits to those objects reach
      it: a click, wait change, clear or decode on a frame the editor still
      shares with it. A clone replaces the earlier frames by copies (only the
      appended frame is the selected object itself) and a delete-all by a
      new frame; edits to those do not reach it, nor do additions and
      deletions. An edit changes
      the delay that the next tick schedules, not the one already pending.
      The frame it lands on becomes the selected index of the
      editor's current list. The result is a valid editor exactly when that
      index exists in the current list, which holds whenever no frame was
      deleted since play was pressed. */
  function ShowTick(e: Editor, captured: seq<Frame>, pb: Playback): (r: (Editor, Playback))
    requires Valid(e) && |captured| >= 1 && pb.timer.Pending? && -1 <= pb.cursor < |captured|
    ensures r.0.frames == e.frames && r.0.selected == r.1.cursor
    ensures r.1.playing == pb.playing
    ensures r.1.cursor == (pb.cursor + 1) % |captured| && r.1.timer == Pending(captured[r.1.cursor].wait)
    ensures Valid(r.0) <==> r.1.cursor < |e.frames|
    ensures |captured| <= |e.frames| ==> Valid(r.0)
  {
    var q := Tick(captured, pb);
    (Editor(e.frames, q.cursor), q)
  }

  /** Deleting a frame while playback runs: after add and play, the first
      tick selects frame 0; deleting it leaves one frame, and the next tick
      of the chain, still stepping over the two frames captured at play,
      selects frame 1, which the current list does not have. */
  lemma DeleteDuringPlaybackSelectsPastEnd()
    ensures var e1 := AddFrame(Initial());
      var captured := e1.frames;
      var t1 := ShowTick(e1, captured, TogglePlay(captured, STOPPED));
      var e2 := DeleteFrame(t1.0);
      var t2 := ShowTick(e2, captured, t1.1);
      t1.0.selected == 0 && |e2.frames| == 1 &&
      t2.0.selected == 1 && !Valid(t2.0)
  {
  }

  /** A wait changed during playback, on a frame the captured list still
      shares with the editor, changes the delay that the following tick
      schedules; the tick already pending keeps the old delay. With no clone
      or delete-all in between, the captured list is the editor's list with
      the edit applied. */
  lemma WaitEditDuringPlayback()
    ensures var e0 := Initial();
      var t1 := ShowTick(e0, e0.frames, TogglePlay(e0.frames, STOPPED));
      var e1 := ChangeFrameLength(t1.0, 300);
      t1.1.timer == Pending(DEFAULT_WAIT) &&
      ShowTick(e1, e1.frames, t1.1).1.timer == Pending(300)
  {
  }

  /** After a clone the editor's frames are copies, so a wait edit on the
      copy of the first frame does not reach the captured list: the next
      tick still schedules the first frame's original delay. */
  lemma CloneThenWaitEditMissesChain()
    ensures var e0 := Initial();
      var t1 := ShowTick(e0, e0.frames, TogglePlay(e0.frames, STOPPED));
      var e1 := ChangeFrameLength(Select(Clone(t1.0), 0), 300);
      Current(e1).wait == 300 &&
      ShowTick(e1, e0.frames, t1.1).1.timer == Pending(DEFAULT_WAIT)
  {
  }

  /** The corrected tick: the cursor steps over the editor's current list,
      so a cursor left past the end by a delete wraps to the first frame.
      The selection is always a frame of the current list. */
  function LiveTick(e: Editor, pb: Playback): (r: (Editor, Playback))
    requires Valid(e) && pb.timer.Pending? && pb.cursor >= -1
    ensures Valid(r.0) && r.0.frames == e.frames && r.0.selected == r.1.cursor
    ensures pb.cursor < |e.frames| ==> r.1.cursor == (pb.cursor + 1) % |e.frames|
    ensures pb.cursor >= |e.frames| ==> r.1.cursor == 0
    ensures r.1.playing == pb.playing && r.1.timer == Pending(e.frames[r.1.cursor].wait)
  {
    var next := Advance(|e.frames|, pb.cursor);
    (Editor(e.frames, next), Playback(pb.playing, next, Pending(TickDelay(e.frames, next))))
  }

  /** With no frame deleted since play, the corrected tick is the tick of
      the code. */
  lemma LiveTickAgrees(e: Editor, pb: Playback)
    requires Valid(e) && pb.timer.Pending? && -1 <= pb.cursor < |e.frames|
    ensures LiveTick(e, pb) == ShowTick(e, e.frames, pb)
  {
  }

  /** The same deletion during playback under the corrected tick: the next
      tick selects the one remaining frame. */
  lemma DeleteDuringLivePlaybackStaysValid()
    ensures var e1 := AddFrame(Initial());
      var t1 := LiveTick(e1, TogglePlay(e1.frames, STOPPED));
      var e2 := DeleteFrame(t1.0);
      var t2 := LiveTick(e2, t1.1);
      t1.0.selected == 0 && |e2.frames| == 1 && t2.0.selected == 0 && Valid(t2.0)
  {
  }

  function Run(frames: seq<Frame>, pb: Playback, k: nat): (r: Playback)
    requires |frames| >= 1 && pb.timer.Pending? && -1 <= pb.cursor < |frames|
    ensures r.timer.Pending? && -1 <= r.cursor < |frames|
    decreases k
  {
    if k == 0 then pb else Tick(frames, Run(frames, pb, k - 1))
  }

  /** Euclidean division is unique. */
  lemma ModUnique(a: int, n: int, q: int, m: int)
    requires n >= 1 && 0 <= m < n && a == n * q + m
    ensures a % n == m
  {
    var q', m' := a / n, a % n;
    assert n * (q - q') == m' - m;
    if q > q' {
      MulAtLeast(n, q - q');
    } else if q < q' {
      MulAtLeast(n, q' - q);
    }
  }

  lemma MulAtLeast(n: int, d: int)
    requires n >= 1 && d >= 1
    ensures n * d >= n
  {
  }

  lemma ModSucc(k: nat, n: int)
    requires n >= 1
    ensures (k + 1) % n == if k % n == n - 1 then 0 else k % n + 1
  {
    var q, m := k / n, k % n;
    if m == n - 1 {
      ModUnique(k + 1, n, q + 1, 0);
    } else {
      ModUnique(k + 1, n, q, m + 1);
    }
  }

  /** After starting, the (k+1)-th tick shows frame k modulo the frame
      count: playback cycles through every frame in order, starting with the
      first, and each tick waits the wait of the frame it lands on. */
  lemma {:induction false} PlaybackCycles(frames: seq<Frame>, k: nat)
    requires |frames| >= 1
    ensures var start := TogglePlay(frames, STOPPED);
      Run(frames, start, k + 1).cursor == k % |frames| &&
      Run(frames, start, k + 1).timer == Pending(frames[k % |frames|].wait)
  {
    var start := TogglePlay(frames, STOPPED);
    if k > 0 {
      PlaybackCycles(frames, k - 1);
      ModSucc(k - 1, |frames|);
    }
  }
}
