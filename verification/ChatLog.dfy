/** The chat log window of src/client/uichat.c: the cached messages and the page on display, without
    the drawing. */
module ChatLog {
  import opened Message
  import opened Integers
  import opened Wrappers
  import LinkedList

  const MAX_CACHED_LINES: nat := 100

  datatype Mode = Live | Browse

  /** The window's state: the cached entries, the first line of the page, and the size of the screen area.
      Before the first drawing the area has no lines. */
  datatype Window = Window(log: seq<C2HMessage>, currentLine: int, lines: int, pageSize: int, mode: Mode)

  const INITIAL: Window := Window([], 0, 0, 0, Live)

  datatype Event =
    | Message(message: C2HMessage)
    | SetMode(mode: Mode)
    | PreviousPage
    | NextPage
    | Render(lines: int)

  /** UIChatWin_logMessage and ChatLogEntry_create keep what is not a quit and not empty. */
  predicate Loggable(m: C2HMessage) {
    !m.kind.Quit? && m.content != ""
  }

  /** The last `n` entries. */
  function LastOf<T>(s: seq<T>, n: nat): (t: seq<T>)
    ensures |t| == if |s| < n then |s| else n
  {
    if |s| <= n then s else s[|s| - n..]
  }

  function OnLog(w: Window, m: C2HMessage): Window {
    if !Loggable(m) then w else
    var log := w.log + [m];
    w.(log := if |log| > MAX_CACHED_LINES then log[1..] else log)
  }

  function OnSetMode(w: Window, mode: Mode): Window {
    if w.mode == mode then w
    else if mode.Browse? then
      w.(mode := mode, currentLine := if |w.log| > w.lines then |w.log| - w.lines else w.currentLine)
    else
      w.(mode := mode, currentLine := if |w.log| > 0 then |w.log| - 1 else w.currentLine)
  }

  function OnPreviousPage(w: Window): Window {
    var line := w.currentLine - w.pageSize;
    w.(currentLine := if line < 0 then 0 else line)
  }

  /** The correction at its end takes the page back when it ran past the log. */
  function OnNextPage(w: Window): Window {
    if w.currentLine < |w.log| - w.pageSize then
      var line := w.currentLine + w.pageSize;
      w.(currentLine := if line > |w.log| then line - (|w.log| - 1) else line)
    else w
  }

  function Handle(w: Window, e: Event): Window {
    match e
    case Message(m) => OnLog(w, m)
    case SetMode(mode) => OnSetMode(w, mode)
    case PreviousPage => OnPreviousPage(w)
    case NextPage => OnNextPage(w)
    case Render(lines) => w.(lines := lines, pageSize := lines - 1)
  }

  function Run(w: Window, events: seq<Event>): Window
    decreases |events|
  {
    if events == [] then w else Run(Handle(w, events[0]), events[1..])
  }

  /** The messages of a run that are worth a line, in order. */
  function Logged(events: seq<Event>): seq<C2HMessage> {
    if events == [] then []
    else if events[0].Message? && events[0].message.kind != Quit && events[0].message.content != "" then
      [events[0].message] + Logged(events[1..])
    else Logged(events[1..])
  }

  /** A curses window that can be drawn has at least one line. */
  predicate Drawable(events: seq<Event>) {
    forall i :: 0 <= i < |events| && events[i].Render? ==> events[i].lines >= 1
  }

  // ----- the log

  /** The cache is the end of everything that was worth a line. */
  lemma {:induction false} CacheIsTail(w: Window, events: seq<Event>, all: seq<C2HMessage>)
    requires w.log == LastOf(all, MAX_CACHED_LINES)
    ensures Run(w, events).log == LastOf(all + Logged(events), MAX_CACHED_LINES)
    decreases |events|
  {
    if events == [] {
      assert all + [] == all;
    } else {
      var w' := Handle(w, events[0]);
      if events[0].Message? && Loggable(events[0].message) {
        var m := events[0].message;
        OneMoreLine(w, m, all);
        CacheIsTail(w', events[1..], all + [m]);
        assert (all + [m]) + Logged(events[1..]) == all + ([m] + Logged(events[1..]));
      } else {
        CacheIsTail(w', events[1..], all);
      }
    }
  }

  lemma {:induction false} OneMoreLine(w: Window, m: C2HMessage, all: seq<C2HMessage>)
    requires w.log == LastOf(all, MAX_CACHED_LINES) && Loggable(m)
    ensures OnLog(w, m).log == LastOf(all + [m], MAX_CACHED_LINES)
  {
  }

  lemma {:induction false} LogHoldsTheLast(events: seq<Event>)
    ensures Run(INITIAL, events).log == LastOf(Logged(events), MAX_CACHED_LINES)
  {
    hide Run, Logged;
    CacheIsTail(INITIAL, events, []);
    assert [] + Logged(events) == Logged(events);
  }

  // ----- the page

  /** The page starts at a line of the log, or at 0 when there is none. */
  predicate OnPage(w: Window) {
    0 <= w.currentLine && (w.log == [] ==> w.currentLine == 0) && (w.log != [] ==> w.currentLine < |w.log|)
  }

  /** No lines before the first drawing, and a page of one line less than the area from then on. */
  predicate Sized(w: Window) {
    w.lines >= 0 && w.pageSize == if w.lines == 0 then 0 else w.lines - 1
  }

  /** The event sets the page past the log: it turns on browsing in a window without lines. */
  predicate BrowsesUndrawn(w: Window, e: Event) {
    e.SetMode? && e.mode.Browse? && w.mode.Live? && w.lines == 0 && w.log != []
  }

  lemma {:induction false} EventKeepsPage(w: Window, e: Event)
    requires OnPage(w) && Sized(w) && Drawable([e])
    ensures OnPage(Handle(w, e)) <==> !BrowsesUndrawn(w, e)
    ensures Sized(Handle(w, e)) && (w.lines >= 1 ==> Handle(w, e).lines >= 1)
  {
    assert [e][0] == e;
  }

  predicate AlwaysOnPage(w: Window, events: seq<Event>)
    decreases |events|
  {
    OnPage(w) && (events == [] || AlwaysOnPage(Handle(w, events[0]), events[1..]))
  }

  predicate NeverBrowsesUndrawn(w: Window, events: seq<Event>)
    decreases |events|
  {
    events == [] || (!BrowsesUndrawn(w, events[0]) && NeverBrowsesUndrawn(Handle(w, events[0]), events[1..]))
  }

  /** The page is on the log all through a run exactly if the run never turns on browsing in a window that
      has messages and no lines. */
  lemma {:induction false} RunKeepsPage(w: Window, events: seq<Event>)
    requires OnPage(w) && Sized(w) && Drawable(events)
    ensures AlwaysOnPage(w, events) <==> NeverBrowsesUndrawn(w, events)
    decreases |events|
  {
    hide OnPage, BrowsesUndrawn, Sized;
    if events != [] {
      var next := Handle(w, events[0]);
      EventKeepsPage(w, events[0]);
      if OnPage(next) {
        RunKeepsPage(next, events[1..]);
      } else {
        assert !AlwaysOnPage(next, events[1..]);
      }
    }
  }

  /** A page forward ends on the log and never needs the correction, and a page back undoes it. */
  lemma {:induction false} NextPageIsUndone(w: Window)
    requires OnPage(w) && Sized(w) && w.currentLine < |w.log| - w.pageSize
    ensures OnNextPage(w).currentLine == w.currentLine + w.pageSize < |w.log|
    ensures OnPreviousPage(OnNextPage(w)) == w
  {
  }

  lemma {:induction false} DrawnNeverBrowsesUndrawn(w: Window, events: seq<Event>)
    requires w.lines >= 1 && Drawable(events)
    ensures NeverBrowsesUndrawn(w, events)
    decreases |events|
  {
    if events != [] {
      DrawnNeverBrowsesUndrawn(Handle(w, events[0]), events[1..]);
    }
  }

  /** Once the window is drawn the page stays on the log, whatever is logged, paged or resized. */
  lemma {:induction false} PageStaysOnLog(lines: int, events: seq<Event>)
    requires lines >= 1 && Drawable(events)
    ensures AlwaysOnPage(Handle(INITIAL, Render(lines)), events)
  {
    hide AlwaysOnPage, NeverBrowsesUndrawn;
    DrawnNeverBrowsesUndrawn(Handle(INITIAL, Render(lines)), events);
    RunKeepsPage(Handle(INITIAL, Render(lines)), events);
  }

  /** Browsing before the first drawing puts the page behind the only line. */
  lemma {:induction false} UndrawnPageLeavesLog(m: C2HMessage)
    requires Loggable(m)
    ensures var w := Run(INITIAL, [Message(m), SetMode(Browse)]); w.currentLine == 1 && |w.log| == 1 && !OnPage(w)
  {
    var events := [Message(m), SetMode(Browse)];
    assert events[1..] == [SetMode(Browse)] && events[1..][1..] == [];
    assert Run(Handle(Handle(INITIAL, Message(m)), SetMode(Browse)), []).currentLine == 1;
  }

  // ----- what is on display

  /** The entries at the lines from `start` to before `end` that there are. */
  function Between<T>(s: seq<T>, start: int, end: int): (entries: seq<T>) {
    var lo := if start < 0 then 0 else start;
    var hi := if end > |s| then |s| else end;
    if lo < hi then s[lo..hi] else []
  }

  /** The entries that are written to the window: the last page in live mode, the page from the current line
      on when browsing. */
  function Shown(w: Window): (shown: seq<C2HMessage>) {
    if w.mode.Live? then Between(w.log, |w.log| - w.pageSize, |w.log|)
    else Between(w.log, w.currentLine, w.currentLine + w.pageSize)
  }

  /** Switching to browsing in a drawn window over a log longer than the window shows the entries in front of
      the newest one; switching back shows the newest. */
  lemma {:induction false} SwitchShows(w: Window)
    requires OnPage(w) && Sized(w) && w.lines >= 1 && |w.log| > w.lines
    ensures w.mode.Live? ==>
      Shown(Handle(w, SetMode(Browse))) == w.log[|w.log| - w.lines..|w.log| - 1]
    ensures w.mode.Browse? ==>
      Shown(Handle(w, SetMode(Live))) == w.log[|w.log| - w.pageSize..]
  {
  }

  /** While browsing, the pages follow each other: the next one starts where this one ends, and nothing between
      them is left out or shown twice. */
  lemma {:induction false} PagesAdjoin(w: Window)
    requires OnPage(w) && Sized(w) && w.mode.Browse? && w.currentLine < |w.log| - w.pageSize
    ensures var next := Handle(w, NextPage);
      && OnPage(next)
      && w.log[w.currentLine..] == Shown(w) + w.log[next.currentLine..]
      && |Shown(w)| == w.pageSize
  {
    var next := Handle(w, NextPage);
    assert w.log[w.currentLine..][..w.pageSize] == w.log[w.currentLine..next.currentLine];
  }

  /** In live mode the end of the log is on display. */
  lemma {:induction false} LiveShows(w: Window)
    requires w.mode.Live? && w.pageSize >= 0
    ensures Shown(w) == LastOf(w.log, w.pageSize)
  {
  }

  /** On the last page a page forward stays where it is. */
  lemma {:induction false} LastPageStays(w: Window)
    requires w.currentLine + w.pageSize >= |w.log|
    ensures Handle(w, NextPage) == w
  {
  }

  /** While browsing, a page back shows the entries right in front of the current line: a whole page of them, or
      the page from line 0 when there is less than one, with all of them on it. */
  lemma {:induction false} PageBackShows(w: Window)
    requires OnPage(w) && Sized(w) && w.mode.Browse?
    ensures var back := Handle(w, PreviousPage);
      && OnPage(back) && back.log == w.log
      && (w.currentLine >= w.pageSize ==>
            |Shown(back)| == w.pageSize && w.log[back.currentLine..] == Shown(back) + w.log[w.currentLine..])
      && (w.currentLine < w.pageSize ==>
            back.currentLine == 0 && Shown(back) <= w.log && w.log[..w.currentLine] <= Shown(back))
  {
    var back := Handle(w, PreviousPage);
    if w.currentLine >= w.pageSize {
      assert Shown(back) == w.log[back.currentLine..w.currentLine];
    }
  }

  /** Page by page the way back leads to the oldest entry, and no further. */
  lemma {:induction false} PagesBack(w: Window, events: seq<Event>)
    requires 0 <= w.currentLine && w.pageSize >= 0
    requires forall i :: 0 <= i < |events| ==> events[i] == PreviousPage
    ensures var gone := |events| * w.pageSize;
      Run(w, events) == w.(currentLine := if w.currentLine > gone then w.currentLine - gone else 0)
    decreases |events|
  {
    if events == [] {
      assert |events| * w.pageSize == 0;
    } else {
      PagesBack(Handle(w, PreviousPage), events[1..]);
      assert |events| * w.pageSize == (|events| - 1) * w.pageSize + w.pageSize;
    }
  }

  /** A log that the window has room for is shown from its newest entry only when browsing is turned off and on
      again, since no line is looked for then. */
  lemma {:induction false} ShortLogShowsNewest(w: Window)
    requires OnPage(w) && Sized(w) && w.mode.Browse? && 0 < |w.log| <= w.lines && w.lines >= 2
    ensures var again := Handle(Handle(w, SetMode(Live)), SetMode(Browse));
      again.currentLine == |w.log| - 1 && Shown(again) == [w.log[|w.log| - 1]]
  {
  }

  // ----- the window as it is updated

  /** The window, with its cached messages in a list. */
  class ChatWindow {
    const chatlog: LinkedList.List<C2HMessage>
    const entrySize: nat
    var currentLine: int
    var lines: int
    var pageSize: nat
    var mode: Mode

    ghost function Log(): seq<C2HMessage>
      reads chatlog, chatlog.nodes
    {
      LinkedList.DataOf(chatlog.Contents())
    }

    /** int and size_t are wide enough for the screens and logs there are. */
    ghost predicate Valid()
      reads this, chatlog, chatlog.nodes
    {
      && chatlog.Valid() && |chatlog.nodes| <= MAX_CACHED_LINES
      && -1 < lines < 0x1000_0000 && pageSize < 0x1000_0000
      && -0x1000_0000 < currentLine < 0x1000_0000
    }

    ghost function Now(): Window
      reads this, chatlog, chatlog.nodes
    {
      Window(Log(), currentLine, lines, pageSize, mode)
    }

    constructor (entrySize: nat)
      ensures Valid() && Now() == INITIAL && fresh(chatlog) && chatlog.nodes == []
    {
      chatlog := new LinkedList.List();
      this.entrySize := entrySize;
      currentLine, lines, pageSize, mode := 0, 0, 0, Live;
    }

    lemma {:induction false} LogMore(items: seq<LinkedList.Item<C2HMessage>>, m: C2HMessage)
      ensures LinkedList.DataOf(items + [LinkedList.Item(m, entrySize)]) == LinkedList.DataOf(items) + [m]
    {
    }

    lemma {:induction false} LogLess(items: seq<LinkedList.Item<C2HMessage>>)
      requires items != []
      ensures LinkedList.DataOf(items[..0] + items[1..]) == LinkedList.DataOf(items)[1..]
    {
    }

    /** The entry is appended to the list, and the oldest is deleted when there are too many. */
    method LogMessage(m: C2HMessage)
      requires Valid()
      modifies chatlog, chatlog.nodes
      ensures Valid() && Now() == Handle(old(Now()), Message(m))
      ensures forall n <- chatlog.nodes :: n in old(chatlog.nodes) || fresh(n)
    {
      hide LinkedList.Linked, LinkedList.Items, LinkedList.DataOf;
      if m.kind == Quit || |m.content| == 0 {
        return;
      }
      LogMore(chatlog.Contents(), m);
      var done := chatlog.Append(m, entrySize);
      if chatlog.length > MAX_CACHED_LINES {
        LogLess(chatlog.Contents());
        done := chatlog.Delete(0);
      }
    }

    /** Which lines the content is written from, and up to which. */
    method Bounds() returns (start: int, end: int)
      requires Valid()
      ensures Between(Log(), start, end) == Shown(Now())
    {
      hide LinkedList.Linked, LinkedList.Items, LinkedList.DataOf, Between;
      SameBounds(Log(), |Log()| - pageSize, |Log()|);
      SameBounds(Log(), currentLine, currentLine + pageSize);
      if mode == Live {
        MixedArithmetic(chatlog.length - pageSize);
        start := ToInt(ToSize(chatlog.length - pageSize));
        if start < 0 {
          start := 0;
        }
        end := chatlog.length;
      } else {
        start := currentLine;
        MixedArithmetic(start + pageSize);
        end := ToInt(ToSize(start + pageSize));
        if end >= chatlog.length {
          end := chatlog.length;
        }
      }
    }

    /** UIChatWin_updateContent: the entries it writes, walking down the list for each of them. */
    method UpdateContent() returns (shown: seq<C2HMessage>)
      requires Valid()
      ensures shown == Shown(Now())
    {
      hide LinkedList.Linked, LinkedList.Items, LinkedList.DataOf, Between, Shown;
      shown := [];
      var start, end := Bounds();
      ghost var all := Log();
      NothingBetween(all, start, end);
      if chatlog.length == 0 {
        return;
      }
      var line := start;
      while line < end
        invariant start <= line && (line <= end || line == start)
        invariant shown == Between(all, start, line)
      {
        OneLineMore(all, start, line);
        var entry := chatlog.ItemAt(line);
        if entry != None {
          shown := shown + [entry.value];
        }
        line := line + 1;
      }
    }

    /** Mode and page; the content is written anew whenever the mode changes. */
    method SwitchMode(mode: Mode) returns (shown: Option<seq<C2HMessage>>)
      requires Valid()
      modifies this`mode, this`currentLine
      ensures Valid() && Now() == Handle(old(Now()), SetMode(mode))
      ensures shown == if mode == old(this.mode) then None else Some(Shown(Now()))
    {
      hide LinkedList.Linked, LinkedList.Items, LinkedList.DataOf, Shown;
      if this.mode == mode {
        return None;
      }
      this.mode := mode;
      if this.mode == Browse {
        if chatlog.length > lines {
          currentLine := chatlog.length - lines;
        }
      } else {
        if chatlog.length > 0 {
          currentLine := chatlog.length - 1;
        }
      }
      var content := UpdateContent();
      return Some(content);
    }

    method ShowPreviousPage() returns (shown: seq<C2HMessage>)
      requires Valid()
      modifies this`currentLine
      ensures Valid() && Now() == Handle(old(Now()), PreviousPage) && shown == Shown(Now())
    {
      hide LinkedList.Linked, LinkedList.Items, LinkedList.DataOf, Shown;
      MixedArithmetic(currentLine - pageSize);
      currentLine := ToInt(ToSize(currentLine - pageSize));
      if currentLine < 0 {
        currentLine := 0;
      }
      shown := UpdateContent();
    }

    method ShowNextPage() returns (shown: Option<seq<C2HMessage>>)
      requires Valid()
      modifies this`currentLine
      ensures Valid() && Now() == Handle(old(Now()), NextPage)
      ensures shown == if old(currentLine) < |Log()| - pageSize then Some(Shown(Now())) else None
    {
      hide LinkedList.Linked, LinkedList.Items, LinkedList.DataOf, Shown;
      MixedArithmetic(chatlog.length - pageSize);
      if currentLine < ToInt(ToSize(chatlog.length - pageSize)) {
        MixedArithmetic(currentLine + pageSize);
        currentLine := ToInt(ToSize(currentLine + pageSize));
        if currentLine > chatlog.length {
          assert false; // the correction is never reached
        }
        var content := UpdateContent();
        return Some(content);
      }
      return None;
    }

    method Draw(height: int) returns (shown: seq<C2HMessage>)
      requires Valid() && 1 <= height < 0x1000_0000
      modifies this`lines, this`pageSize
      ensures Valid() && Now() == Handle(old(Now()), Render(height)) && shown == Shown(Now())
    {
      hide LinkedList.Linked, LinkedList.Items, LinkedList.DataOf, Shown;
      lines := height;
      pageSize := height - 1;
      shown := UpdateContent();
    }
  }

  lemma {:induction false} NothingBetween<T>(s: seq<T>, start: int, end: int)
    ensures Between(s, start, start) == [] && (s == [] || end <= start ==> Between(s, start, end) == [])
  {
  }

  lemma {:induction false} OneLineMore<T>(s: seq<T>, start: int, line: int)
    requires start <= line
    ensures Between(s, start, line + 1) == Between(s, start, line) + if 0 <= line < |s| then [s[line]] else []
  {
  }

  /** The bounds that the code computes show the same entries. */
  lemma {:induction false} SameBounds<T>(s: seq<T>, start: int, end: int)
    ensures Between(s, start, end) == Between(s, if start < 0 then 0 else start, end)
    ensures Between(s, start, end) == Between(s, start, if end >= |s| then |s| else end)
  {
  }
}
