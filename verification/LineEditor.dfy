/** The terminal's input line and command history: an array edited in place against a text before and a
    text after the caret. */
module LineEditor {
  import opened Bitwise

  const MAX := 255
  const REMEMBERED := 16

  const BACKSPACE: uint8 := 0x08
  const NEWLINE: uint8 := 0x0a
  const RETURN: uint8 := 0x0d
  const UP: uint8 := 0x11
  const DOWN: uint8 := 0x12
  const LEFT: uint8 := 0x13
  const RIGHT: uint8 := 0x14
  const HOME: uint8 := 0x15
  const END: uint8 := 0x16
  const DEL: uint8 := 0x7f

  type Text = seq<uint8>

  predicate Printable(key: uint8) {
    0x20 <= key < 0x7f
  }

  /** A text that fits the buffer and has no terminator inside. */
  ghost predicate Clean(t: Text) {
    |t| <= MAX && 0 !in t
  }

  // ------------------------------------------------------------------ specification

  /** The line around the caret, the remembered commands (oldest first) and which of them is recalled. */
  datatype Editor = Editor(before: Text, after: Text, history: seq<Text>, index: nat) {
    ghost predicate Valid() {
      && Clean(before + after) && |history| <= REMEMBERED && index <= |history|
      && forall i :: 0 <= i < |history| ==> history[i] != [] && Clean(history[i])
    }

    function Line(): Text {
      before + after
    }
  }

  function Recall(e: Editor, index: nat): Editor
    requires index <= |e.history|
  {
    Editor(if index == |e.history| then [] else e.history[index], [], e.history, index)
  }

  /** What a key does to the line. */
  function Press(e: Editor, key: uint8): Editor
    requires e.index <= |e.history|
  {
    if key == BACKSPACE then
      (if e.before == [] then e else e.(before := e.before[..|e.before| - 1]))
    else if key == DEL then
      (if e.after == [] then e else e.(after := e.after[1..]))
    else if key == LEFT then
      (if e.before == [] then e
       else e.(before := e.before[..|e.before| - 1], after := [e.before[|e.before| - 1]] + e.after))
    else if key == RIGHT then
      (if e.after == [] then e else e.(before := e.before + [e.after[0]], after := e.after[1..]))
    else if key == HOME then e.(before := [], after := e.Line())
    else if key == END then e.(before := e.Line(), after := [])
    else if key == UP then (if e.index > 0 then Recall(e, e.index - 1) else e)
    else if key == DOWN then (if e.index < |e.history| then Recall(e, e.index + 1) else e)
    else if Printable(key) && |e.Line()| < MAX then e.(before := e.before + [key])
    else e
  }

  lemma PressKeeps(e: Editor, key: uint8)
    requires e.Valid()
    ensures Press(e, key).Valid() && Press(e, key).history == e.history
  {
    hide Clean;
    var r := Press(e, key);
    CleanParts(e.before, e.after);
    if key == UP || key == DOWN {
      Recalled(e, r.index);
    } else if key == LEFT && e.before != [] {
      assert r.Line() == e.Line();
    } else if key == RIGHT && e.after != [] {
      assert r.Line() == e.Line();
    } else if key == HOME || key == END {
      assert r.Line() == e.Line();
    } else if key == BACKSPACE && e.before != [] {
      LessClean(e.before[..|e.before| - 1], e.before, e.after, e.after);
    } else if key == DEL && e.after != [] {
      LessClean(e.before, e.before, e.after[1..], e.after);
    } else if r.before != e.before {
      MoreClean(e.before, key, e.after);
    }
  }

  lemma CleanParts(a: Text, b: Text)
    requires Clean(a + b)
    ensures Clean(a) && Clean(b)
  {
    assert forall c <- a :: c in a + b;
    assert forall c <- b :: c in a + b;
  }

  lemma LessClean(a: Text, a': Text, b: Text, b': Text)
    requires Clean(a' + b') && |a| + |b| <= |a'| + |b'|
    requires (forall c <- a :: c in a') && (forall c <- b :: c in b')
    ensures Clean(a + b)
  {
    CleanParts(a', b');
  }

  lemma MoreClean(a: Text, key: uint8, b: Text)
    requires Clean(a + b) && |a + b| < MAX && key != 0
    ensures Clean(a + [key] + b)
  {
    CleanParts(a, b);
  }

  lemma Recalled(e: Editor, index: nat)
    requires e.Valid() && index <= |e.history|
    ensures Recall(e, index).Valid()
  {
    if index < |e.history| {
      assert e.history[index] + [] == e.history[index];
    }
  }

  /** One more command in the history: blanks and repetitions of the last one are not kept, and only
      the last 16 are. */
  function Remember(history: seq<Text>, line: Text): seq<Text> {
    if line == [] || (history != [] && history[|history| - 1] == line) then history
    else if |history| < REMEMBERED then history + [line]
    else history[1..] + [line]
  }

  /** Submitting the line empties it and rewinds the recall. */
  function Submit(e: Editor): Editor {
    var h := Remember(e.history, e.Line());
    Editor([], [], h, |h|)
  }

  lemma SubmitKeeps(e: Editor)
    requires e.Valid()
    ensures Submit(e).Valid()
  {
  }

  /** The keys that move the caret leave the line alone, and left and right undo one another. */
  lemma CaretMoves(e: Editor)
    requires e.index <= |e.history|
    ensures Press(e, HOME).before == [] && Press(e, HOME).Line() == e.Line()
    ensures Press(e, END).after == [] && Press(e, END).Line() == e.Line()
    ensures Press(e, LEFT).Line() == e.Line() && Press(e, RIGHT).Line() == e.Line()
    ensures e.before != [] ==> |Press(e, LEFT).before| == |e.before| - 1 && Press(Press(e, LEFT), RIGHT) == e
    ensures e.after != [] ==> |Press(e, RIGHT).before| == |e.before| + 1 && Press(Press(e, RIGHT), LEFT) == e
  {
    hide Press;
    HomeAndEnd(e);
    LeftAndRight(e);
    if e.before != [] { LeftBack(e); }
    if e.after != [] { RightBack(e); }
  }

  lemma LeftBack(e: Editor)
    requires e.index <= |e.history| && e.before != []
    ensures Press(e, LEFT).Line() == e.Line()
    ensures |Press(e, LEFT).before| == |e.before| - 1 && Press(Press(e, LEFT), RIGHT) == e
  {
    hide Press;
    LeftAndRight(e);
    LastMoved(e.before, e.after);
    LeftAndRight(Press(e, LEFT));
  }

  lemma RightBack(e: Editor)
    requires e.index <= |e.history| && e.after != []
    ensures Press(e, RIGHT).Line() == e.Line()
    ensures |Press(e, RIGHT).before| == |e.before| + 1 && Press(Press(e, RIGHT), LEFT) == e
  {
    hide Press;
    LeftAndRight(e);
    FirstMoved(e.before, e.after);
    LeftAndRight(Press(e, RIGHT));
  }

  lemma LastMoved(a: Text, b: Text)
    requires a != []
    ensures var n := |a| - 1;
            var c := [a[n]] + b;
            c != [] && c[0] == a[n] && c[1..] == b && a[..n] + [c[0]] == a && a[..n] + c == a + b
  {
  }

  lemma FirstMoved(a: Text, b: Text)
    requires b != []
    ensures var c := a + [b[0]];
            c != [] && c[..|c| - 1] == a && [c[|c| - 1]] + b[1..] == b && c + b[1..] == a + b
  {
  }

  lemma HomeAndEnd(e: Editor)
    requires e.index <= |e.history|
    ensures Press(e, HOME) == e.(before := [], after := e.before + e.after)
    ensures Press(e, END) == e.(before := e.before + e.after, after := [])
  {
  }

  lemma LeftAndRight(e: Editor)
    requires e.index <= |e.history|
    ensures Press(e, LEFT) == if e.before == [] then e else
      e.(before := e.before[..|e.before| - 1], after := [e.before[|e.before| - 1]] + e.after)
    ensures Press(e, RIGHT) == if e.after == [] then e else e.(before := e.before + [e.after[0]], after := e.after[1..])
  {
  }

  /** Backspace takes back what was typed last, and delete does the same from one place to the left. */
  lemma Deletions(e: Editor, key: uint8)
    requires e.index <= |e.history|
    ensures Printable(key) && |e.Line()| < MAX ==> Press(Press(e, key), BACKSPACE) == e
    ensures e.before != [] ==> Press(Press(e, LEFT), DEL) == Press(e, BACKSPACE)
    ensures e.before == [] ==> Press(e, BACKSPACE) == e
    ensures e.after == [] ==> Press(e, DEL) == e
  {
    assert (e.before + [key])[..|e.before|] == e.before;
    if e.before != [] {
      assert ([e.before[|e.before| - 1]] + e.after)[1..] == e.after;
    }
  }

  // --------------------------------------------------------------------- all sessions

  /** The editor together with every line submitted so far. */
  datatype Session = Session(e: Editor, lines: seq<Text>)

  function Feed(s: Session, key: uint8): Session
    requires s.e.Valid()
  {
    if key == NEWLINE || key == RETURN then Session(Submit(s.e), s.lines + [s.e.Line()])
    else s.(e := Press(s.e, key))
  }

  /** The lines that are not blank and not the same as the one kept before them. */
  function Kept(lines: seq<Text>): (k: seq<Text>)
    ensures forall i :: 0 <= i < |k| ==> k[i] != []
    ensures forall i :: 0 <= i < |k| - 1 ==> k[i] != k[i + 1]
  {
    if lines == [] then []
    else
      var k, line := Kept(lines[..|lines| - 1]), lines[|lines| - 1];
      if line == [] || (k != [] && k[|k| - 1] == line) then k else k + [line]
  }

  function NotBlank(lines: seq<Text>): seq<Text> {
    if lines == [] then [] else (if lines[0] == [] then [] else [lines[0]]) + NotBlank(lines[1..])
  }

  /** One line for every run of equal ones. */
  function Runs(lines: seq<Text>): seq<Text> {
    if |lines| < 2 then lines
    else (if lines[0] == lines[1] then [] else [lines[0]]) + Runs(lines[1..])
  }

  /** What is kept of all lines: blanks taken out, then repetitions. */
  lemma {:induction false} KeptIsRuns(lines: seq<Text>)
    ensures Kept(lines) == Runs(NotBlank(lines))
    ensures NotBlank(lines) != [] ==>
      Kept(lines) != [] && Kept(lines)[|Kept(lines)| - 1] == NotBlank(lines)[|NotBlank(lines)| - 1]
  {
    hide NotBlank, Runs;
    if lines == [] {
      NoLines();
    } else {
      var before, line := lines[..|lines| - 1], lines[|lines| - 1];
      NoLines();
      KeptIsRuns(before);
      assert lines == before + [line];
      NotBlankSnoc(before, line);
      if line == [] {
        assert NotBlank(lines) == NotBlank(before);
      } else if NotBlank(before) == [] {
        assert Kept(before) == [];
      }
      RunsSnoc(NotBlank(before), line);
    }
  }

  lemma NoLines()
    ensures NotBlank([]) == [] && Runs([]) == []
  {
  }

  lemma {:induction false} NotBlankSnoc(lines: seq<Text>, line: Text)
    ensures NotBlank(lines + [line]) == NotBlank(lines) + if line == [] then [] else [line]
  {
    if lines == [] {
      assert (lines + [line])[1..] == [];
    } else {
      assert (lines + [line])[1..] == lines[1..] + [line];
      NotBlankSnoc(lines[1..], line);
    }
  }

  lemma {:induction false} RunsSnoc(lines: seq<Text>, line: Text)
    ensures Runs(lines + [line]) ==
      if lines != [] && lines[|lines| - 1] == line then Runs(lines) else Runs(lines) + [line]
  {
    if |lines| < 2 {
      if lines != [] {
        assert (lines + [line])[1..] == [line];
      }
    } else {
      assert (lines + [line])[1..] == lines[1..] + [line];
      RunsSnoc(lines[1..], line);
    }
  }

  function Latest(k: seq<Text>): (l: seq<Text>)
    ensures |l| == if |k| < 16 then |k| else 16
    ensures forall i :: 0 <= i < |l| ==> l[i] == k[|k| - |l| + i]
  {
    if |k| <= REMEMBERED then k else k[|k| - REMEMBERED..]
  }

  ghost predicate InOrder(s: Session) {
    s.e.Valid() && s.e.history == Latest(Kept(s.lines))
  }

  lemma RememberLatest(k: seq<Text>, line: Text)
    ensures Remember(Latest(k), line) ==
      Latest(if line == [] || (k != [] && k[|k| - 1] == line) then k else k + [line])
  {
  }

  lemma FeedKeeps(s: Session, key: uint8)
    requires InOrder(s)
    ensures InOrder(Feed(s, key))
  {
    hide Clean, Press, Latest, Remember;
    if key == NEWLINE || key == RETURN {
      SubmitKeeps(s.e);
      RememberLatest(Kept(s.lines), s.e.Line());
      assert (s.lines + [s.e.Line()])[..|s.lines|] == s.lines;
    } else {
      PressKeeps(s.e, key);
    }
  }

  function Type(s: Session, keys: seq<uint8>): Session
    requires s.e.Valid()
    decreases |keys|
  {
    if keys == [] then s
    else
      FeedValid(s, keys[0]);
      Type(Feed(s, keys[0]), keys[1..])
  }

  lemma FeedValid(s: Session, key: uint8)
    requires s.e.Valid()
    ensures Feed(s, key).e.Valid()
  {
    hide Clean, Press, Remember;
    SubmitKeeps(s.e);
    PressKeeps(s.e, key);
  }

  lemma FeedPrintable(s: Session, key: uint8)
    requires s.e.Valid() && Printable(key) && |s.e.Line()| < MAX
    ensures Feed(s, key) == s.(e := s.e.(before := s.e.before + [key]))
  {
  }

  /** Printable keys go into the line in front of the caret, as many as fit. */
  lemma {:induction false} Typing(s: Session, text: Text)
    requires s.e.Valid() && (forall c <- text :: Printable(c)) && |s.e.Line()| + |text| <= MAX
    ensures Type(s, text) == s.(e := s.e.(before := s.e.before + text))
    decreases |text|
  {
    hide Press, Feed, Printable, Clean;
    if text != [] {
      var t := Feed(s, text[0]);
      assert Printable(text[0]);
      FeedPrintable(s, text[0]);
      FeedValid(s, text[0]);
      Typing(t, text[1..]);
      assert s.e.before + text == s.e.before + [text[0]] + text[1..];
    } else {
      assert s.e.before + text == s.e.before;
    }
  }

  /** n times up recalls the n-th line back from where the recall stands. */
  lemma {:induction false} UpRecalls(s: Session, n: nat)
    requires s.e.Valid() && 0 < n <= s.e.index
    ensures var t := Type(s, seq(n, _ => UP)).e;
            t.Line() == s.e.history[s.e.index - n] && t.after == [] && t.index == s.e.index - n && t.history == s.e.history
    decreases n
  {
    var keys := seq(n, _ => UP);
    var t := Feed(s, UP);
    FeedValid(s, UP);
    assert keys[1..] == seq(n - 1, _ => UP);
    if n > 1 {
      UpRecalls(t, n - 1);
    }
  }

  /** And n times down comes back, at the end to an empty line. */
  lemma {:induction false} DownRecalls(s: Session, n: nat)
    requires s.e.Valid() && 0 < n <= |s.e.history| - s.e.index
    ensures var t, k := Type(s, seq(n, _ => DOWN)).e, s.e.index + n;
            t.Line() == (if k == |s.e.history| then [] else s.e.history[k]) && t.after == [] && t.index == k
            && t.history == s.e.history
    decreases n
  {
    var keys := seq(n, _ => DOWN);
    var t := Feed(s, DOWN);
    FeedValid(s, DOWN);
    assert keys[1..] == seq(n - 1, _ => DOWN);
    if n > 1 {
      DownRecalls(t, n - 1);
    }
  }

  lemma {:induction false} TypeKeeps(s: Session, keys: seq<uint8>)
    requires InOrder(s)
    ensures InOrder(Type(s, keys))
    decreases |keys|
  {
    hide Clean, Press, Remember, Kept, Latest, Feed;
    if keys != [] {
      FeedKeeps(s, keys[0]);
      TypeKeeps(Feed(s, keys[0]), keys[1..]);
    }
  }

  /** For every sequence of keys the history is the last 16 of the submitted lines, blanks and consecutive
      repetitions removed, and the line stays within the buffer. */
  lemma HistoryIsLatest(keys: seq<uint8>)
    ensures Editor([], [], [], 0).Valid()
    ensures var s := Type(Session(Editor([], [], [], 0), []), keys);
            s.e.history == Latest(Kept(s.lines)) && |s.e.Line()| <= MAX
  {
    hide Press, Remember, Feed;
    TypeKeeps(Session(Editor([], [], [], 0), []), keys);
  }

  // ------------------------------------------------------------------- the history

  /** 16 rows of 256 characters, each a text up to its terminator; texts says which. */
  class History {
    const rows: array2<uint8>
    var count: nat
    ghost var texts: seq<Text>

    ghost predicate Shaped() {
      rows.Length0 == REMEMBERED && rows.Length1 == MAX + 1
    }

    ghost predicate RowIs(r: nat, t: Text)
      requires Shaped() && r < REMEMBERED
      reads rows
    {
      Clean(t) && (forall i :: 0 <= i < |t| ==> rows[r, i] == t[i]) && rows[r, |t|] == 0
    }

    ghost predicate Valid()
      reads this, rows
    {
      Shaped() && count == |texts| <= REMEMBERED && forall r :: 0 <= r < count ==> RowIs(r, texts[r])
    }

    constructor ()
      ensures Valid() && texts == [] && fresh(rows)
    {
      rows := new uint8[REMEMBERED, MAX + 1]((_, _) => 0);
      count, texts := 0, [];
    }

    /** Copies one row onto another, up to its terminator. */
    method CopyRow(from: nat, to: nat, ghost t: Text)
      requires Shaped() && from < REMEMBERED && to < REMEMBERED && from != to && RowIs(from, t)
      modifies rows
      ensures RowIs(to, t)
      ensures forall r, u :: 0 <= r < REMEMBERED && r != to && old(RowIs(r, u)) ==> RowIs(r, u)
    {
      var i := 0;
      while rows[from, i] != 0
        invariant 0 <= i <= |t| && RowIs(from, t)
        invariant forall k :: 0 <= k < i ==> rows[to, k] == t[k]
        invariant forall r, k :: 0 <= r < REMEMBERED && r != to && 0 <= k <= MAX ==> rows[r, k] == old(rows[r, k])
        decreases |t| - i
      {
        rows[to, i] := rows[from, i];
        i := i + 1;
      }
      rows[to, i] := 0;
    }

    method StoreRow(to: nat, cmd: Text)
      requires Shaped() && to < REMEMBERED && Clean(cmd)
      modifies rows
      ensures RowIs(to, cmd)
      ensures forall r, u :: 0 <= r < REMEMBERED && r != to && old(RowIs(r, u)) ==> RowIs(r, u)
    {
      for i := 0 to |cmd|
        invariant forall k :: 0 <= k < i ==> rows[to, k] == cmd[k]
        invariant forall r, k :: 0 <= r < REMEMBERED && r != to && 0 <= k <= MAX ==> rows[r, k] == old(rows[r, k])
      {
        rows[to, i] := cmd[i];
      }
      rows[to, |cmd|] := 0;
    }

    /** The string comparison with a row. */
    method SameRow(r: nat, cmd: Text, ghost t: Text) returns (same: bool)
      requires Shaped() && r < REMEMBERED && Clean(cmd) && RowIs(r, t)
      ensures same <==> cmd == t
    {
      var i := 0;
      while i < |cmd| && rows[r, i] == cmd[i]
        invariant 0 <= i <= |cmd| && i <= |t| && forall k :: 0 <= k < i ==> cmd[k] == t[k]
      {
        i := i + 1;
      }
      same := i == |cmd| && rows[r, i] == 0;
      if same {
        assert i == |t|;
      }
    }

    /** `historyAdd`: once all rows are taken each moves up by one, in place. */
    method Add(cmd: Text)
      requires Valid() && Clean(cmd)
      modifies this, rows
      ensures Valid() && texts == Remember(old(texts), cmd)
    {
      if cmd == [] { return; }
      if count > 0 {
        var same := SameRow(count - 1, cmd, texts[count - 1]);
        if same { return; }
      }
      if count < REMEMBERED {
        StoreRow(count, cmd);
        texts := texts + [cmd];
        count := count + 1;
      } else {
        MoveUp();
        StoreRow(REMEMBERED - 1, cmd);
        texts := texts[1..] + [cmd];
      }
    }

    method MoveUp()
      requires Valid() && count == REMEMBERED
      modifies rows
      ensures Shaped() && forall k :: 0 <= k < REMEMBERED - 1 ==> RowIs(k, texts[1..][k])
    {
      hide Clean;
      ghost var up := texts[1..];
      for r := 1 to REMEMBERED
        invariant forall k :: 0 <= k < r - 1 ==> RowIs(k, up[k])
        invariant forall k :: r <= k < REMEMBERED ==> RowIs(k, texts[k])
      {
        CopyRow(r, r - 1, texts[r]);
      }
    }
  }

  // ------------------------------------------------------------------- the terminal

  class Terminal {
    const inputBuffer: array<uint8>
    var inputPosition: nat
    var cursorPos: nat
    const history: History
    var historyIndex: nat
    var readingInput: bool

    ghost predicate Valid()
      reads this, inputBuffer, history, history.rows
    {
      && inputBuffer.Length == MAX + 1
      && cursorPos <= inputPosition <= MAX && inputBuffer[inputPosition] == 0
      && history.Valid() && historyIndex <= history.count
      && View().Valid()
    }

    ghost function View(): Editor
      requires inputBuffer.Length == MAX + 1 && cursorPos <= inputPosition <= MAX
      reads this, inputBuffer, history
    {
      Editor(inputBuffer[..cursorPos], inputBuffer[cursorPos..inputPosition], history.texts, historyIndex)
    }

    /** The terminal as the main loop starts it. */
    constructor ()
      ensures Valid() && View() == Editor([], [], [], 0) && readingInput
    {
      inputBuffer := new uint8[MAX + 1](_ => 0);
      history := new History();
      inputPosition, cursorPos, historyIndex, readingInput := 0, 0, 0, true;
    }

    /** Removes the character at a position by shifting the rest of the line to the left. */
    method CloseGap(at: nat)
      requires inputBuffer.Length == MAX + 1 && at < inputPosition <= MAX
      modifies inputBuffer, this`inputPosition
      ensures inputPosition == old(inputPosition) - 1 && inputBuffer[inputPosition] == 0
      ensures inputBuffer[..at] == old(inputBuffer[..at])
      ensures inputBuffer[at..inputPosition] == old(inputBuffer[at + 1..inputPosition])
    {
      ghost var was, n := inputBuffer[..], inputPosition;
      for i := at to inputPosition - 1
        invariant inputPosition == n
        invariant forall k :: 0 <= k < at || i <= k <= MAX ==> inputBuffer[k] == was[k]
        invariant forall k :: at <= k < i ==> inputBuffer[k] == was[k + 1]
      {
        inputBuffer[i] := inputBuffer[i + 1];
      }
      inputPosition := inputPosition - 1;
      inputBuffer[inputPosition] := 0;
      assert inputBuffer[..at] == was[..at];
      assert inputBuffer[at..inputPosition] == was[at + 1..n];
    }

    /** Makes room for a character by shifting the rest of the line to the right. */
    method Insert(at: nat, key: uint8)
      requires inputBuffer.Length == MAX + 1 && at <= inputPosition < MAX
      modifies inputBuffer, this`inputPosition
      ensures inputPosition == old(inputPosition) + 1 && inputBuffer[inputPosition] == 0
      ensures inputBuffer[..at] == old(inputBuffer[..at]) && inputBuffer[at] == key
      ensures inputBuffer[at + 1..inputPosition] == old(inputBuffer[at..inputPosition])
    {
      ShiftRight(at);
      inputBuffer[at] := key;
      inputPosition := inputPosition + 1;
      inputBuffer[inputPosition] := 0;
    }

    method ShiftRight(at: nat)
      requires inputBuffer.Length == MAX + 1 && at <= inputPosition < MAX
      modifies inputBuffer
      ensures inputBuffer[..at] == old(inputBuffer[..at])
      ensures inputBuffer[at + 1..inputPosition + 1] == old(inputBuffer[at..inputPosition])
    {
      ghost var was := inputBuffer[..];
      var i := inputPosition;
      while i > at
        invariant at <= i <= inputPosition
        invariant forall k :: 0 <= k <= i ==> inputBuffer[k] == was[k]
        invariant forall k :: i < k <= inputPosition ==> inputBuffer[k] == was[k - 1]
      {
        inputBuffer[i] := inputBuffer[i - 1];
        i := i - 1;
      }
      assert inputBuffer[at + 1..inputPosition + 1] == was[at..inputPosition];
    }

    /** `setInputLine` with a row of the history. */
    method SetInputLine(r: nat)
      requires inputBuffer.Length == MAX + 1 && history.Valid() && r < history.count
      modifies inputBuffer, this`inputPosition, this`cursorPos
      ensures inputPosition == cursorPos <= MAX && inputBuffer[inputPosition] == 0
      ensures inputBuffer[..cursorPos] == history.texts[r]
    {
      ghost var t := history.texts[r];
      assert history.RowIs(r, t);
      var n := 0;
      while n < MAX && history.rows[r, n] != 0
        invariant 0 <= n <= |t| <= MAX && history.RowIs(r, t)
        invariant forall k :: 0 <= k < n ==> inputBuffer[k] == t[k]
      {
        inputBuffer[n] := history.rows[r, n];
        n := n + 1;
      }
      inputBuffer[n] := 0;
      inputPosition, cursorPos := n, n;
    }

    method Backspace()
      requires Valid()
      modifies this`inputPosition, this`cursorPos, inputBuffer
      ensures inputBuffer.Length == MAX + 1 && cursorPos <= inputPosition <= MAX && inputBuffer[inputPosition] == 0
      ensures View() == Press(old(View()), BACKSPACE)
    {
      hide Clean;
      if cursorPos > 0 {
        CloseGap(cursorPos - 1);
        cursorPos := cursorPos - 1;
      }
    }

    method Delete()
      requires Valid()
      modifies this`inputPosition, inputBuffer
      ensures inputBuffer.Length == MAX + 1 && cursorPos <= inputPosition <= MAX && inputBuffer[inputPosition] == 0
      ensures View() == Press(old(View()), DEL)
    {
      hide Clean;
      if cursorPos < inputPosition {
        CloseGap(cursorPos);
      }
    }

    method TypeKey(key: uint8)
      requires Valid() && Printable(key)
      modifies this`inputPosition, this`cursorPos, inputBuffer
      ensures inputBuffer.Length == MAX + 1 && cursorPos <= inputPosition <= MAX && inputBuffer[inputPosition] == 0
      ensures View() == Press(old(View()), key)
    {
      hide Clean;
      if inputPosition < MAX {
        Insert(cursorPos, key);
        cursorPos := cursorPos + 1;
      }
    }

    /** The caret keys. */
    method Move(key: uint8)
      requires Valid() && key in {LEFT, RIGHT, HOME, END}
      modifies this`cursorPos
      ensures cursorPos <= inputPosition && View() == Press(old(View()), key)
    {
      hide Clean;
      Moved(View(), inputBuffer[..inputPosition], cursorPos, key);
      if key == LEFT {
        if cursorPos > 0 { cursorPos := cursorPos - 1; }
      } else if key == RIGHT {
        if cursorPos < inputPosition { cursorPos := cursorPos + 1; }
      } else {
        cursorPos := if key == HOME then 0 else inputPosition;
      }
      assert inputBuffer[..cursorPos] == inputBuffer[..inputPosition][..cursorPos];
      assert inputBuffer[cursorPos..inputPosition] == inputBuffer[..inputPosition][cursorPos..];
    }

    method RecallKey(key: uint8)
      requires Valid() && key in {UP, DOWN}
      modifies this`inputPosition, this`cursorPos, this`historyIndex, inputBuffer
      ensures inputBuffer.Length == MAX + 1 && cursorPos <= inputPosition <= MAX && inputBuffer[inputPosition] == 0
      ensures history.Valid() && historyIndex <= history.count && View() == Press(old(View()), key)
    {
      hide Clean;
      if key == UP {
        if history.count > 0 && historyIndex > 0 {
          historyIndex := historyIndex - 1;
          SetInputLine(historyIndex);
        }
      } else if historyIndex < history.count {
        historyIndex := historyIndex + 1;
        if historyIndex == history.count {
          inputBuffer[0] := 0;
          inputPosition, cursorPos := 0, 0;
        } else {
          SetInputLine(historyIndex);
        }
      }
    }

    /** `handleChar`: a key edits the line, or completes it; none does while no input is read. */
    method HandleChar(key: uint8) returns (ready: bool)
      requires Valid()
      modifies this`inputPosition, this`cursorPos, this`historyIndex, inputBuffer
      ensures Valid() && ready == (readingInput && (key == NEWLINE || key == RETURN))
      ensures View() == if ready || !readingInput then old(View()) else Press(old(View()), key)
    {
      hide Clean, Press;
      PressKeeps(View(), key);
      Ignored(View(), key);
      ready := false;
      if key == 0 || !readingInput {
      } else if key == NEWLINE || key == RETURN {
        ready := true;
      } else if key == BACKSPACE {
        Backspace();
      } else if key == DEL {
        Delete();
      } else if key in {LEFT, RIGHT, HOME, END} {
        Move(key);
      } else if key in {UP, DOWN} {
        RecallKey(key);
      } else if 0x20 <= key < 0x7f {
        TypeKey(key);
      }
    }

    /** What the main loop does with a complete line, apart from running it. */
    method Enter()
      requires Valid()
      modifies this, inputBuffer, history, history.rows
      ensures Valid() && View() == Submit(old(View())) && readingInput == old(readingInput)
    {
      hide Clean, Remember;
      SubmitKeeps(View());
      inputBuffer[inputPosition] := 0;
      assert inputBuffer[..inputPosition] == View().Line();
      history.Add(inputBuffer[..inputPosition]);
      historyIndex := history.count;
      inputPosition, cursorPos := 0, 0;
      inputBuffer[0] := 0;
    }
  }

  /** The caret keys leave the line and cut it at another place. */
  lemma Moved(e: Editor, line: Text, c: nat, key: uint8)
    requires c <= |line| && e.before == line[..c] && e.after == line[c..] && e.index <= |e.history|
    requires key in {LEFT, RIGHT, HOME, END}
    ensures var n := if key == LEFT then (if c > 0 then c - 1 else c)
                     else if key == RIGHT then (if c < |line| then c + 1 else c)
                     else if key == HOME then 0 else |line|;
            Press(e, key) == e.(before := line[..n], after := line[n..])
  {
    assert line[..c] + line[c..] == line;
  }

  lemma Ignored(e: Editor, key: uint8)
    requires e.index <= |e.history|
    ensures key !in {BACKSPACE, DEL, LEFT, RIGHT, HOME, END, UP, DOWN} && !Printable(key) ==> Press(e, key) == e
  {
  }
}
